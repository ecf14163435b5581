/** The store facade (`RedisStore`): it dispatches each command to its
    operation module, keeps the publish/subscribe registry, answers the
    transaction commands with success without doing anything, and fails
    every command it does not implement. */
module RedisStore {
  import opened Common
  import opened BaseStore
  import SortedDictionary
  import KeyOperations
  import ListOperations
  import SetOperations
  import HashOperations
  import SortedSetOperations

  /** A subscriber callback, known only by identity. */
  type SubscriberId = nat

  /** One invocation of a subscriber callback by `Publish`. */
  datatype Delivery = Delivery(subscriber: SubscriberId, channel: string, message: string)

  /** Channel name to its subscribers, in subscription order. */
  type Registry = map<string, seq<SubscriberId>>

  /** The whole state behind the facade. */
  datatype Engine = Engine(keyspace: Keyspace, subscribers: Registry)

  /** Every registered channel has at least one subscriber. */
  predicate NoEmptyChannel(reg: Registry)
  {
    forall c :: c in reg ==> |reg[c]| > 0
  }

  /** The loop of `PublishAsync`: each subscriber in turn receives the message. */
  function Deliveries(ids: seq<SubscriberId>, channel: string, message: string): (log: seq<Delivery>)
    ensures |log| == |ids|
    ensures forall i :: 0 <= i < |ids| ==> log[i] == Delivery(ids[i], channel, message)
    decreases |ids|
  {
    if ids == [] then [] else [Delivery(ids[0], channel, message)] + Deliveries(ids[1..], channel, message)
  }

  /** `PublishAsync`: true when the channel is registered, and then every
      subscriber of the channel is called once, in subscription order. */
  function Publish(reg: Registry, channel: string, message: string): (r: (bool, seq<Delivery>))
    ensures r.0 <==> channel in reg
    ensures !r.0 ==> r.1 == []
    ensures r.0 ==> |r.1| == |reg[channel]|
    ensures r.0 ==> forall i :: 0 <= i < |r.1| ==>
      r.1[i].subscriber == reg[channel][i] && r.1[i].channel == channel && r.1[i].message == message
  {
    if channel in reg then (true, Deliveries(reg[channel], channel, message)) else (false, [])
  }

  /** `SubscribeAsync`: appends one subscriber to the channel, registering
      the channel first when needed; always succeeds. */
  function Subscribe(reg: Registry, channel: string, subscriber: SubscriberId): (r: (bool, Registry))
    ensures r.0
    ensures channel in r.1 && |r.1[channel]| > 0 && r.1[channel][|r.1[channel]| - 1] == subscriber
    ensures channel in reg ==> r.1[channel][..|r.1[channel]| - 1] == reg[channel]
    ensures channel !in reg ==> r.1[channel] == [subscriber]
    ensures r.1 - {channel} == reg - {channel}
  {
    var existing := if channel in reg then reg[channel] else [];
    (true, reg[channel := existing + [subscriber]])
  }

  /** `UnsubscribeAsync`: drops the channel with all its subscribers; reports
      whether it was registered. */
  function Unsubscribe(reg: Registry, channel: string): (r: (bool, Registry))
    ensures r.0 <==> channel in reg
    ensures channel !in r.1
    ensures r.1 - {channel} == reg - {channel}
  {
    (channel in reg, reg - {channel})
  }

  /** The facade commands `RedisStore` declares but does not implement. The
      `...Many` names are the variadic overloads of `LPush`, `SRem`, `HDel`
      and `ZRem`, whose single-argument forms are implemented. */
  datatype Unsupported =
    | Increment | Decrement | Append | GetRange | SetRange | StrLen
    | SetBit | GetBit | BitCount | BitOp | BitPos
    | LPushMany | LLen | LSet | LRem | LTrim
    | SRemMany | SCard | SPop | SRandMember | SInterStore | SUnionStore | SDiffStore
    | HExists | HIncrementBy | HKeys | HLen | HVals | HDelMany
    | ZRemMany | ZScore | ZIncrementBy | ZCard | ZCount | ZRangeByScore | ZRevRangeByScore
    | ZRank | ZRevRank | ZRemRangeByRank | ZRemRangeByScore | ZUnionStore | ZInterStore

  /** A facade call with its arguments. Durations are relative to `now`. */
  datatype Command =
    | Set(key: string, value: string, expiration: Option<int>)
    | Get(key: string)
    | Delete(key: string)
    | Exists(key: string)
    | Ttl(key: string)
    | SetExpiration(key: string, duration: int)
    | RemoveExpiration(key: string)
    | GetExpiration(key: string)
    | LPush(key: string, value: string)
    | RPush(key: string, values: seq<string>)
    | LPop(key: string)
    | RPop(key: string)
    | LRange(key: string, start: int, stop: int)
    | LIndex(key: string, index: int)
    | SAdd(key: string, members: seq<string>)
    | SRem(key: string, member: string)
    | SMembers(key: string)
    | SIsMember(key: string, member: string)
    | HSet(key: string, field: string, value: string)
    | HGet(key: string, field: string)
    | HGetAll(key: string)
    | HDel(key: string, field: string)
    | ZAdd(key: string, member: string, score: SortedDictionary.Score)
    | ZAddMany(key: string, items: seq<(SortedDictionary.Score, string)>)
    | ZRem(key: string, member: string)
    | ZRange(key: string, start: int, stop: int, withScores: bool)
    | ZRevRange(key: string, start: int, stop: int, withScores: bool)
    | CmdPublish(channel: string, message: string)
    | CmdSubscribe(channel: string, subscriber: SubscriberId)
    | CmdUnsubscribe(channel: string)
    | BeginTransaction
    | CommitTransaction
    | RollbackTransaction
    | Unimplemented(op: Unsupported)

  /** What a facade call answers. `NotImplemented` is the thrown
      `NotImplementedException`, distinct from every ordinary answer. */
  datatype Reply =
    | Flag(flag: bool)
    | Count(count: int)
    | Text(text: Option<string>)
    | Texts(texts: seq<string>)
    | Members(members: set<string>)
    | Fields(fields: map<string, string>)
    | Duration(duration: Option<int>)
    | Published(delivered: bool, log: seq<Delivery>)
    | NotImplemented

  datatype Outcome = Outcome(reply: Reply, engine: Engine)

  predicate IsTransaction(c: Command)
  {
    c.BeginTransaction? || c.CommitTransaction? || c.RollbackTransaction?
  }

  predicate IsPubSub(c: Command)
  {
    c.CmdPublish? || c.CmdSubscribe? || c.CmdUnsubscribe?
  }

  /** The commands that work on one key of the keyspace. */
  predicate IsKeyCommand(c: Command)
  {
    !IsTransaction(c) && !IsPubSub(c) && !c.Unimplemented?
  }

  /** The commands that only read: at most they evict the key they look up. */
  predicate IsQuery(c: Command)
  {
    || c.Get? || c.Exists? || c.Ttl? || c.GetExpiration? || c.LRange? || c.LIndex?
    || c.SMembers? || c.SIsMember? || c.HGet? || c.HGetAll? || c.ZRange? || c.ZRevRange?
  }

  /** The commands each operation module serves. */
  predicate IsStringCommand(c: Command)
  {
    || c.Set? || c.Get? || c.Delete? || c.Exists? || c.Ttl? || c.SetExpiration?
    || c.RemoveExpiration? || c.GetExpiration?
  }

  predicate IsListCommand(c: Command)
  {
    c.LPush? || c.RPush? || c.LPop? || c.RPop? || c.LRange? || c.LIndex?
  }

  predicate IsSetCommand(c: Command)
  {
    c.SAdd? || c.SRem? || c.SMembers? || c.SIsMember?
  }

  predicate IsHashCommand(c: Command)
  {
    c.HSet? || c.HGet? || c.HGetAll? || c.HDel?
  }

  /** Keyspace queries: they answer from one key and at most evict it. */
  function RunQuery(ks: Keyspace, now: int, c: Command): (r: Step<Reply>)
    requires IsQuery(c)
    ensures EvictsAtMost(ks, r.store, now, c.key)
    ensures !r.result.NotImplemented?
  {
    if IsStringCommand(c) then RunStringQuery(ks, now, c)
    else if IsListCommand(c) then RunListQuery(ks, now, c)
    else if IsSetCommand(c) then RunSetQuery(ks, now, c)
    else if IsHashCommand(c) then RunHashQuery(ks, now, c)
    else RunSortedSetQuery(ks, now, c)
  }

  /** Keyspace updates: they change at most the key they name. */
  function RunUpdate(ks: Keyspace, now: int, c: Command): (r: Step<Reply>)
    requires IsKeyCommand(c) && !IsQuery(c)
    ensures r.store - {c.key} == ks - {c.key}
    ensures !r.result.NotImplemented?
  {
    if IsStringCommand(c) then RunStringUpdate(ks, now, c)
    else if IsListCommand(c) then RunListUpdate(ks, now, c)
    else if IsSetCommand(c) then RunSetUpdate(ks, now, c)
    else if IsHashCommand(c) then RunHashUpdate(ks, now, c)
    else RunSortedSetUpdate(ks, now, c)
  }

  /** The reads of `KeyOperations`. */
  function RunStringQuery(ks: Keyspace, now: int, c: Command): (r: Step<Reply>)
    requires c.Get? || c.Exists? || c.Ttl? || c.GetExpiration?
    ensures EvictsAtMost(ks, r.store, now, c.key)
    ensures !r.result.NotImplemented?
  {
    match c
    case Get(key) =>
      var s := KeyOperations.Get(ks, now, key);
      Step(Text(s.result), s.store)
    case Exists(key) =>
      var s := KeyOperations.Exists(ks, now, key);
      Step(Flag(s.result), s.store)
    case Ttl(key) => Step(Duration(KeyOperations.Ttl(ks, now, key)), ks)
    case GetExpiration(key) => Step(Duration(KeyOperations.Ttl(ks, now, key)), ks)
  }

  /** The writes of `KeyOperations`. */
  function RunStringUpdate(ks: Keyspace, now: int, c: Command): (r: Step<Reply>)
    requires c.Set? || c.Delete? || c.SetExpiration? || c.RemoveExpiration?
    ensures r.store - {c.key} == ks - {c.key}
    ensures !r.result.NotImplemented?
  {
    match c
    case Set(key, value, expiration) =>
      var s := KeyOperations.Set(ks, now, key, value, expiration);
      Step(Flag(s.result), s.store)
    case Delete(key) =>
      var s := KeyOperations.Delete(ks, key);
      Step(Flag(s.result), s.store)
    case SetExpiration(key, duration) =>
      var s := KeyOperations.SetExpiration(ks, now, key, duration);
      Step(Flag(s.result), s.store)
    case RemoveExpiration(key) =>
      var s := KeyOperations.RemoveExpiration(ks, key);
      Step(Flag(s.result), s.store)
  }

  /** The reads of `ListOperations`. */
  function RunListQuery(ks: Keyspace, now: int, c: Command): (r: Step<Reply>)
    requires c.LRange? || c.LIndex?
    ensures EvictsAtMost(ks, r.store, now, c.key)
    ensures !r.result.NotImplemented?
  {
    match c
    case LRange(key, start, stop) =>
      var s := ListOperations.LRange(ks, now, key, start, stop);
      Step(Texts(s.result), s.store)
    case LIndex(key, index) => Step(Text(ListOperations.LIndex(ks, key, index)), ks)
  }

  /** The pushes of `ListOperations`, which never look at the clock. */
  function RunPush(ks: Keyspace, c: Command): (r: Step<Reply>)
    requires c.LPush? || c.RPush?
    ensures r.store - {c.key} == ks - {c.key}
    ensures !r.result.NotImplemented?
  {
    match c
    case LPush(key, value) =>
      var s := ListOperations.LPush(ks, key, value);
      Step(Count(s.result), s.store)
    case RPush(key, values) =>
      var s := ListOperations.RPush(ks, key, values);
      Step(Count(s.result), s.store)
  }

  /** The pops of `ListOperations`. */
  function RunPop(ks: Keyspace, now: int, c: Command): (r: Step<Reply>)
    requires c.LPop? || c.RPop?
    ensures r.store - {c.key} == ks - {c.key}
    ensures !r.result.NotImplemented?
  {
    match c
    case LPop(key) =>
      var s := ListOperations.LPop(ks, now, key);
      assert s.store - {key} == ks - {key} by {
        if s.result.None? { EvictsAtMostKeepsOthers(ks, s.store, now, key); }
      }
      Step(Text(s.result), s.store)
    case RPop(key) =>
      var s := ListOperations.RPop(ks, now, key);
      assert s.store - {key} == ks - {key} by {
        if s.result.None? { EvictsAtMostKeepsOthers(ks, s.store, now, key); }
      }
      Step(Text(s.result), s.store)
  }

  /** The writes of `ListOperations`. */
  function RunListUpdate(ks: Keyspace, now: int, c: Command): (r: Step<Reply>)
    requires c.LPush? || c.RPush? || c.LPop? || c.RPop?
    ensures r.store - {c.key} == ks - {c.key}
    ensures !r.result.NotImplemented?
  {
    if c.LPush? || c.RPush? then RunPush(ks, c) else RunPop(ks, now, c)
  }

  /** The reads of `SetOperations`. */
  function RunSetQuery(ks: Keyspace, now: int, c: Command): (r: Step<Reply>)
    requires c.SMembers? || c.SIsMember?
    ensures EvictsAtMost(ks, r.store, now, c.key)
    ensures !r.result.NotImplemented?
  {
    match c
    case SMembers(key) =>
      var s := SetOperations.SMembers(ks, now, key);
      Step(Members(s.result), s.store)
    case SIsMember(key, member) =>
      var s := SetOperations.SIsMember(ks, now, key, member);
      Step(Flag(s.result), s.store)
  }

  /** The writes of `SetOperations`. */
  function RunSetUpdate(ks: Keyspace, now: int, c: Command): (r: Step<Reply>)
    requires c.SAdd? || c.SRem?
    ensures r.store - {c.key} == ks - {c.key}
    ensures !r.result.NotImplemented?
  {
    match c
    case SAdd(key, members) =>
      var s := SetOperations.SAdd(ks, key, members);
      Step(Count(s.result), s.store)
    case SRem(key, member) =>
      var s := SetOperations.SRem(ks, now, key, member);
      Step(Count(s.result), s.store)
  }

  /** The reads of `HashOperations`. */
  function RunHashQuery(ks: Keyspace, now: int, c: Command): (r: Step<Reply>)
    requires c.HGet? || c.HGetAll?
    ensures EvictsAtMost(ks, r.store, now, c.key)
    ensures !r.result.NotImplemented?
  {
    match c
    case HGet(key, field) =>
      var s := HashOperations.HGet(ks, now, key, field);
      Step(Text(s.result), s.store)
    case HGetAll(key) =>
      var s := HashOperations.HGetAll(ks, now, key);
      Step(Fields(s.result), s.store)
  }

  /** The writes of `HashOperations`. */
  function RunHashUpdate(ks: Keyspace, now: int, c: Command): (r: Step<Reply>)
    requires c.HSet? || c.HDel?
    ensures r.store - {c.key} == ks - {c.key}
    ensures !r.result.NotImplemented?
  {
    match c
    case HSet(key, field, value) =>
      var s := HashOperations.HSet(ks, key, field, value);
      Step(Flag(s.result), s.store)
    case HDel(key, field) =>
      var s := HashOperations.HDel(ks, now, key, field);
      assert s.store - {key} == ks - {key} by {
        if HashOperations.LiveFields(ks, now, key).None? { EvictsAtMostKeepsOthers(ks, s.store, now, key); }
      }
      Step(Flag(s.result), s.store)
  }

  /** The reads of `SortedSetOperations`. */
  function RunSortedSetQuery(ks: Keyspace, now: int, c: Command): (r: Step<Reply>)
    requires c.ZRange? || c.ZRevRange?
    ensures EvictsAtMost(ks, r.store, now, c.key)
    ensures !r.result.NotImplemented?
  {
    match c
    case ZRange(key, start, stop, withScores) =>
      var s := SortedSetOperations.ZRange(ks, now, key, start, stop, withScores);
      Step(Texts(s.result), s.store)
    case ZRevRange(key, start, stop, withScores) =>
      var s := SortedSetOperations.ZRevRange(ks, now, key, start, stop, withScores);
      Step(Texts(s.result), s.store)
  }

  /** The writes of `SortedSetOperations`. */
  function RunSortedSetUpdate(ks: Keyspace, now: int, c: Command): (r: Step<Reply>)
    requires c.ZAdd? || c.ZAddMany? || c.ZRem?
    ensures r.store - {c.key} == ks - {c.key}
    ensures !r.result.NotImplemented?
  {
    match c
    case ZAdd(key, member, score) =>
      var s := SortedSetOperations.ZAdd(ks, key, member, score);
      Step(Count(s.result), s.store)
    case ZAddMany(key, items) =>
      var s := SortedSetOperations.ZAddMany(ks, key, items);
      Step(Count(s.result), s.store)
    case ZRem(key, member) =>
      var s := SortedSetOperations.ZRem(ks, now, key, member);
      assert s.store - {key} == ks - {key} by {
        if SortedSetOperations.LiveDict(ks, now, key).None? { EvictsAtMostKeepsOthers(ks, s.store, now, key); }
      }
      Step(Count(s.result), s.store)
  }

  /** The commands served by the registry, by the no-op transactions and by
      the unimplemented stubs. */
  function RunFacade(e: Engine, c: Command): (r: Outcome)
    requires !IsKeyCommand(c)
    ensures r.reply.NotImplemented? <==> c.Unimplemented?
    ensures r.engine.keyspace == e.keyspace
    ensures !IsPubSub(c) ==> r.engine == e
    ensures IsTransaction(c) ==> r.reply == Flag(true)
  {
    match c
    case CmdPublish(channel, message) =>
      var p := Publish(e.subscribers, channel, message);
      Outcome(Published(p.0, p.1), e)
    case CmdSubscribe(channel, subscriber) =>
      var s := Subscribe(e.subscribers, channel, subscriber);
      Outcome(Flag(s.0), e.(subscribers := s.1))
    case CmdUnsubscribe(channel) =>
      var u := Unsubscribe(e.subscribers, channel);
      Outcome(Flag(u.0), e.(subscribers := u.1))
    case BeginTransaction => Outcome(Flag(true), e)
    case CommitTransaction => Outcome(Flag(true), e)
    case RollbackTransaction => Outcome(Flag(true), e)
    case Unimplemented(_) => Outcome(NotImplemented, e)
  }

  /** One facade call at instant `now`. */
  function Execute(e: Engine, now: int, c: Command): (r: Outcome)
    ensures r.reply.NotImplemented? <==> c.Unimplemented?
    ensures c.Unimplemented? ==> r.engine == e
    ensures IsTransaction(c) ==> r.reply == Flag(true) && r.engine == e
    ensures IsPubSub(c) ==> r.engine.keyspace == e.keyspace
    ensures IsKeyCommand(c) ==> r.engine.subscribers == e.subscribers
    ensures IsKeyCommand(c) ==> r.engine.keyspace - {c.key} == e.keyspace - {c.key}
    ensures IsQuery(c) ==> EvictsAtMost(e.keyspace, r.engine.keyspace, now, c.key)
  {
    if !IsKeyCommand(c) then RunFacade(e, c)
    else if IsQuery(c) then
      var s := RunQuery(e.keyspace, now, c);
      EvictsAtMostKeepsOthers(e.keyspace, s.store, now, c.key);
      Outcome(s.result, e.(keyspace := s.store))
    else
      var s := RunUpdate(e.keyspace, now, c);
      Outcome(s.result, e.(keyspace := s.store))
  }

  /** A query command answers what `RunQuery` answers, on the engine's keyspace. */
  lemma ExecuteQuery(e: Engine, now: int, c: Command)
    requires IsQuery(c)
    ensures Execute(e, now, c) == Outcome(RunQuery(e.keyspace, now, c).result, e.(keyspace := RunQuery(e.keyspace, now, c).store))
  {
  }

  /** An update command answers what `RunUpdate` answers, on the engine's keyspace. */
  lemma ExecuteUpdate(e: Engine, now: int, c: Command)
    requires IsKeyCommand(c) && !IsQuery(c)
    ensures Execute(e, now, c) == Outcome(RunUpdate(e.keyspace, now, c).result, e.(keyspace := RunUpdate(e.keyspace, now, c).store))
  {
  }

  /** `RunUpdate` hands `Set` to its operation. */
  lemma DispatchSet(ks: Keyspace, now: int, key: string, value: string, expiration: Option<int>)
    ensures var s := KeyOperations.Set(ks, now, key, value, expiration);
      RunUpdate(ks, now, Set(key, value, expiration)) == Step(Flag(s.result), s.store)
  {
    var c := Set(key, value, expiration);
    assert IsStringCommand(c);
  }

  /** `RunUpdate` hands `Delete` to its operation. */
  lemma DispatchDelete(ks: Keyspace, now: int, key: string)
    ensures var s := KeyOperations.Delete(ks, key);
      RunUpdate(ks, now, Delete(key)) == Step(Flag(s.result), s.store)
  {
    var c := Delete(key);
    assert IsStringCommand(c);
  }

  /** `SetAsync` and `DeleteAsync` forward to `KeyOperations`: the facade
      answers what the operation answers and keeps the keyspace it leaves behind. */
  lemma ExecuteForwardsKeyUpdates(e: Engine, now: int, key: string, value: string, expiration: Option<int>)
    ensures var s := KeyOperations.Set(e.keyspace, now, key, value, expiration);
      Execute(e, now, Set(key, value, expiration)) == Outcome(Flag(s.result), e.(keyspace := s.store))
    ensures var s := KeyOperations.Delete(e.keyspace, key);
      Execute(e, now, Delete(key)) == Outcome(Flag(s.result), e.(keyspace := s.store))
  {
    ExecuteUpdate(e, now, Set(key, value, expiration));
    ExecuteUpdate(e, now, Delete(key));
    DispatchSet(e.keyspace, now, key, value, expiration);
    DispatchDelete(e.keyspace, now, key);
  }

  /** `RunUpdate` hands `SetExpiration` to its operation. */
  lemma DispatchSetExpiration(ks: Keyspace, now: int, key: string, duration: int)
    ensures var s := KeyOperations.SetExpiration(ks, now, key, duration);
      RunUpdate(ks, now, SetExpiration(key, duration)) == Step(Flag(s.result), s.store)
  {
    var c := SetExpiration(key, duration);
    assert IsStringCommand(c);
  }

  /** `RunUpdate` hands `RemoveExpiration` to its operation. */
  lemma DispatchRemoveExpiration(ks: Keyspace, now: int, key: string)
    ensures var s := KeyOperations.RemoveExpiration(ks, key);
      RunUpdate(ks, now, RemoveExpiration(key)) == Step(Flag(s.result), s.store)
  {
    var c := RemoveExpiration(key);
    assert IsStringCommand(c);
  }

  /** `SetExpirationAsync` and `RemoveExpirationAsync` forward to `KeyOperations`. */
  lemma ExecuteForwardsExpiryUpdates(e: Engine, now: int, key: string, duration: int)
    ensures var s := KeyOperations.SetExpiration(e.keyspace, now, key, duration);
      Execute(e, now, SetExpiration(key, duration)) == Outcome(Flag(s.result), e.(keyspace := s.store))
    ensures var s := KeyOperations.RemoveExpiration(e.keyspace, key);
      Execute(e, now, RemoveExpiration(key)) == Outcome(Flag(s.result), e.(keyspace := s.store))
  {
    ExecuteUpdate(e, now, SetExpiration(key, duration));
    ExecuteUpdate(e, now, RemoveExpiration(key));
    DispatchSetExpiration(e.keyspace, now, key, duration);
    DispatchRemoveExpiration(e.keyspace, now, key);
  }

  /** `RunQuery` hands `Get` to its operation. */
  lemma DispatchGet(ks: Keyspace, now: int, key: string)
    ensures var s := KeyOperations.Get(ks, now, key);
      RunQuery(ks, now, Get(key)) == Step(Text(s.result), s.store)
  {
    var c := Get(key);
    assert IsStringCommand(c);
  }

  /** `RunQuery` hands `Exists` to its operation. */
  lemma DispatchExists(ks: Keyspace, now: int, key: string)
    ensures var s := KeyOperations.Exists(ks, now, key);
      RunQuery(ks, now, Exists(key)) == Step(Flag(s.result), s.store)
  {
    var c := Exists(key);
    assert IsStringCommand(c);
  }

  /** `RunQuery` hands `Ttl` to its operation. */
  lemma DispatchTtl(ks: Keyspace, now: int, key: string)
    ensures RunQuery(ks, now, Ttl(key)) == Step(Duration(KeyOperations.Ttl(ks, now, key)), ks)
  {
    var c := Ttl(key);
    assert IsStringCommand(c);
  }

  /** The key reads forward to `KeyOperations`; `TTLAsync` leaves the
      keyspace as it is. */
  lemma ExecuteForwardsKeyQueries(e: Engine, now: int, key: string)
    ensures var s := KeyOperations.Get(e.keyspace, now, key);
      Execute(e, now, Get(key)) == Outcome(Text(s.result), e.(keyspace := s.store))
    ensures var s := KeyOperations.Exists(e.keyspace, now, key);
      Execute(e, now, Exists(key)) == Outcome(Flag(s.result), e.(keyspace := s.store))
    ensures Execute(e, now, Ttl(key)) == Outcome(Duration(KeyOperations.Ttl(e.keyspace, now, key)), e)
  {
    ExecuteQuery(e, now, Get(key));
    ExecuteQuery(e, now, Exists(key));
    ExecuteQuery(e, now, Ttl(key));
    DispatchGet(e.keyspace, now, key);
    DispatchExists(e.keyspace, now, key);
    DispatchTtl(e.keyspace, now, key);
  }

  /** `RunUpdate` hands `LPush` to its operation. */
  lemma DispatchLPush(ks: Keyspace, now: int, key: string, value: string)
    ensures var s := ListOperations.LPush(ks, key, value);
      RunUpdate(ks, now, LPush(key, value)) == Step(Count(s.result), s.store)
  {
    var c := LPush(key, value);
    assert !IsStringCommand(c) && IsListCommand(c);
  }

  /** `RunUpdate` hands `RPush` to its operation. */
  lemma DispatchRPush(ks: Keyspace, now: int, key: string, values: seq<string>)
    ensures var s := ListOperations.RPush(ks, key, values);
      RunUpdate(ks, now, RPush(key, values)) == Step(Count(s.result), s.store)
  {
    var c := RPush(key, values);
    assert !IsStringCommand(c) && IsListCommand(c);
  }

  /** The pushes forward to `ListOperations`; `LPush` is the single-value
      overload. */
  lemma ExecuteForwardsListPushes(e: Engine, now: int, key: string, value: string, values: seq<string>)
    ensures var s := ListOperations.LPush(e.keyspace, key, value);
      Execute(e, now, LPush(key, value)) == Outcome(Count(s.result), e.(keyspace := s.store))
    ensures var s := ListOperations.RPush(e.keyspace, key, values);
      Execute(e, now, RPush(key, values)) == Outcome(Count(s.result), e.(keyspace := s.store))
  {
    ExecuteUpdate(e, now, LPush(key, value));
    ExecuteUpdate(e, now, RPush(key, values));
    DispatchLPush(e.keyspace, now, key, value);
    DispatchRPush(e.keyspace, now, key, values);
  }

  /** `RunUpdate` hands `LPop` to its operation. */
  lemma DispatchLPop(ks: Keyspace, now: int, key: string)
    ensures var s := ListOperations.LPop(ks, now, key);
      RunUpdate(ks, now, LPop(key)) == Step(Text(s.result), s.store)
  {
    var c := LPop(key);
    assert !IsStringCommand(c) && IsListCommand(c);
  }

  /** `RunUpdate` hands `RPop` to its operation. */
  lemma DispatchRPop(ks: Keyspace, now: int, key: string)
    ensures var s := ListOperations.RPop(ks, now, key);
      RunUpdate(ks, now, RPop(key)) == Step(Text(s.result), s.store)
  {
    var c := RPop(key);
    assert !IsStringCommand(c) && IsListCommand(c);
  }

  /** The pops forward to `ListOperations`. */
  lemma ExecuteForwardsListPops(e: Engine, now: int, key: string)
    ensures var s := ListOperations.LPop(e.keyspace, now, key);
      Execute(e, now, LPop(key)) == Outcome(Text(s.result), e.(keyspace := s.store))
    ensures var s := ListOperations.RPop(e.keyspace, now, key);
      Execute(e, now, RPop(key)) == Outcome(Text(s.result), e.(keyspace := s.store))
  {
    ExecuteUpdate(e, now, LPop(key));
    ExecuteUpdate(e, now, RPop(key));
    DispatchLPop(e.keyspace, now, key);
    DispatchRPop(e.keyspace, now, key);
  }

  /** `RunQuery` hands `LRange` to its operation. */
  lemma DispatchLRange(ks: Keyspace, now: int, key: string, start: int, stop: int)
    ensures var s := ListOperations.LRange(ks, now, key, start, stop);
      RunQuery(ks, now, LRange(key, start, stop)) == Step(Texts(s.result), s.store)
  {
    var c := LRange(key, start, stop);
    assert !IsStringCommand(c) && IsListCommand(c);
  }

  /** `LRangeAsync` forwards to `ListOperations`. */
  lemma ExecuteForwardsListRange(e: Engine, now: int, key: string, start: int, stop: int)
    ensures var s := ListOperations.LRange(e.keyspace, now, key, start, stop);
      Execute(e, now, LRange(key, start, stop)) == Outcome(Texts(s.result), e.(keyspace := s.store))
  {
    ExecuteQuery(e, now, LRange(key, start, stop));
    DispatchLRange(e.keyspace, now, key, start, stop);
  }

  /** `RunQuery` hands `LIndex` to its operation. */
  lemma DispatchLIndex(ks: Keyspace, now: int, key: string, index: int)
    ensures RunQuery(ks, now, LIndex(key, index)) == Step(Text(ListOperations.LIndex(ks, key, index)), ks)
  {
    var c := LIndex(key, index);
    assert !IsStringCommand(c) && IsListCommand(c);
  }

  /** `LIndexAsync` forwards to `ListOperations` and leaves the keyspace as it is. */
  lemma ExecuteForwardsListIndex(e: Engine, now: int, key: string, index: int)
    ensures Execute(e, now, LIndex(key, index)) == Outcome(Text(ListOperations.LIndex(e.keyspace, key, index)), e)
  {
    ExecuteQuery(e, now, LIndex(key, index));
    DispatchLIndex(e.keyspace, now, key, index);
  }

  /** `RunUpdate` hands `SAdd` to its operation. */
  lemma DispatchSAdd(ks: Keyspace, now: int, key: string, members: seq<string>)
    ensures var s := SetOperations.SAdd(ks, key, members);
      RunUpdate(ks, now, SAdd(key, members)) == Step(Count(s.result), s.store)
  {
    var c := SAdd(key, members);
    assert !IsStringCommand(c) && !IsListCommand(c) && IsSetCommand(c);
  }

  /** `RunUpdate` hands `SRem` to its operation. */
  lemma DispatchSRem(ks: Keyspace, now: int, key: string, member: string)
    ensures var s := SetOperations.SRem(ks, now, key, member);
      RunUpdate(ks, now, SRem(key, member)) == Step(Count(s.result), s.store)
  {
    var c := SRem(key, member);
    assert !IsStringCommand(c) && !IsListCommand(c) && IsSetCommand(c);
  }

  /** The set writes forward to `SetOperations`; `SRem` is the
      single-member overload. */
  lemma ExecuteForwardsSetUpdates(e: Engine, now: int, key: string, member: string, members: seq<string>)
    ensures var s := SetOperations.SAdd(e.keyspace, key, members);
      Execute(e, now, SAdd(key, members)) == Outcome(Count(s.result), e.(keyspace := s.store))
    ensures var s := SetOperations.SRem(e.keyspace, now, key, member);
      Execute(e, now, SRem(key, member)) == Outcome(Count(s.result), e.(keyspace := s.store))
  {
    ExecuteUpdate(e, now, SAdd(key, members));
    ExecuteUpdate(e, now, SRem(key, member));
    DispatchSAdd(e.keyspace, now, key, members);
    DispatchSRem(e.keyspace, now, key, member);
  }

  /** `RunQuery` hands `SMembers` to its operation. */
  lemma DispatchSMembers(ks: Keyspace, now: int, key: string)
    ensures var s := SetOperations.SMembers(ks, now, key);
      RunQuery(ks, now, SMembers(key)) == Step(Members(s.result), s.store)
  {
    var c := SMembers(key);
    assert !IsStringCommand(c) && !IsListCommand(c) && IsSetCommand(c);
  }

  /** `RunQuery` hands `SIsMember` to its operation. */
  lemma DispatchSIsMember(ks: Keyspace, now: int, key: string, member: string)
    ensures var s := SetOperations.SIsMember(ks, now, key, member);
      RunQuery(ks, now, SIsMember(key, member)) == Step(Flag(s.result), s.store)
  {
    var c := SIsMember(key, member);
    assert !IsStringCommand(c) && !IsListCommand(c) && IsSetCommand(c);
  }

  /** The set reads forward to `SetOperations`. */
  lemma ExecuteForwardsSetQueries(e: Engine, now: int, key: string, member: string)
    ensures var s := SetOperations.SMembers(e.keyspace, now, key);
      Execute(e, now, SMembers(key)) == Outcome(Members(s.result), e.(keyspace := s.store))
    ensures var s := SetOperations.SIsMember(e.keyspace, now, key, member);
      Execute(e, now, SIsMember(key, member)) == Outcome(Flag(s.result), e.(keyspace := s.store))
  {
    ExecuteQuery(e, now, SMembers(key));
    ExecuteQuery(e, now, SIsMember(key, member));
    DispatchSMembers(e.keyspace, now, key);
    DispatchSIsMember(e.keyspace, now, key, member);
  }

  /** `RunUpdate` hands `HSet` to its operation. */
  lemma DispatchHSet(ks: Keyspace, now: int, key: string, field: string, value: string)
    ensures var s := HashOperations.HSet(ks, key, field, value);
      RunUpdate(ks, now, HSet(key, field, value)) == Step(Flag(s.result), s.store)
  {
    var c := HSet(key, field, value);
    assert !IsStringCommand(c) && !IsListCommand(c) && !IsSetCommand(c) && IsHashCommand(c);
  }

  /** `RunUpdate` hands `HDel` to its operation. */
  lemma DispatchHDel(ks: Keyspace, now: int, key: string, field: string)
    ensures var s := HashOperations.HDel(ks, now, key, field);
      RunUpdate(ks, now, HDel(key, field)) == Step(Flag(s.result), s.store)
  {
    var c := HDel(key, field);
    assert !IsStringCommand(c) && !IsListCommand(c) && !IsSetCommand(c) && IsHashCommand(c);
  }

  /** The hash writes forward to `HashOperations`; `HDel` is the
      single-field overload. */
  lemma ExecuteForwardsHashUpdates(e: Engine, now: int, key: string, field: string, value: string)
    ensures var s := HashOperations.HSet(e.keyspace, key, field, value);
      Execute(e, now, HSet(key, field, value)) == Outcome(Flag(s.result), e.(keyspace := s.store))
    ensures var s := HashOperations.HDel(e.keyspace, now, key, field);
      Execute(e, now, HDel(key, field)) == Outcome(Flag(s.result), e.(keyspace := s.store))
  {
    ExecuteUpdate(e, now, HSet(key, field, value));
    ExecuteUpdate(e, now, HDel(key, field));
    DispatchHSet(e.keyspace, now, key, field, value);
    DispatchHDel(e.keyspace, now, key, field);
  }

  /** `RunQuery` hands `HGet` to its operation. */
  lemma DispatchHGet(ks: Keyspace, now: int, key: string, field: string)
    ensures var s := HashOperations.HGet(ks, now, key, field);
      RunQuery(ks, now, HGet(key, field)) == Step(Text(s.result), s.store)
  {
    var c := HGet(key, field);
    assert !IsStringCommand(c) && !IsListCommand(c) && !IsSetCommand(c) && IsHashCommand(c);
  }

  /** `RunQuery` hands `HGetAll` to its operation. */
  lemma DispatchHGetAll(ks: Keyspace, now: int, key: string)
    ensures var s := HashOperations.HGetAll(ks, now, key);
      RunQuery(ks, now, HGetAll(key)) == Step(Fields(s.result), s.store)
  {
    var c := HGetAll(key);
    assert !IsStringCommand(c) && !IsListCommand(c) && !IsSetCommand(c) && IsHashCommand(c);
  }

  /** The hash reads forward to `HashOperations`. */
  lemma ExecuteForwardsHashQueries(e: Engine, now: int, key: string, field: string)
    ensures var s := HashOperations.HGet(e.keyspace, now, key, field);
      Execute(e, now, HGet(key, field)) == Outcome(Text(s.result), e.(keyspace := s.store))
    ensures var s := HashOperations.HGetAll(e.keyspace, now, key);
      Execute(e, now, HGetAll(key)) == Outcome(Fields(s.result), e.(keyspace := s.store))
  {
    ExecuteQuery(e, now, HGet(key, field));
    ExecuteQuery(e, now, HGetAll(key));
    DispatchHGet(e.keyspace, now, key, field);
    DispatchHGetAll(e.keyspace, now, key);
  }

  /** `RunUpdate` hands `ZAdd` to its operation. */
  lemma DispatchZAdd(ks: Keyspace, now: int, key: string, member: string, score: SortedDictionary.Score)
    ensures var s := SortedSetOperations.ZAdd(ks, key, member, score);
      RunUpdate(ks, now, ZAdd(key, member, score)) == Step(Count(s.result), s.store)
  {
    var c := ZAdd(key, member, score);
    assert !IsStringCommand(c) && !IsListCommand(c) && !IsSetCommand(c) && !IsHashCommand(c);
  }

  /** `RunUpdate` hands `ZAddMany` to its operation. */
  lemma DispatchZAddMany(ks: Keyspace, now: int, key: string, items: seq<(SortedDictionary.Score, string)>)
    ensures var s := SortedSetOperations.ZAddMany(ks, key, items);
      RunUpdate(ks, now, ZAddMany(key, items)) == Step(Count(s.result), s.store)
  {
    var c := ZAddMany(key, items);
    assert !IsStringCommand(c) && !IsListCommand(c) && !IsSetCommand(c) && !IsHashCommand(c);
  }

  /** `RunUpdate` hands `ZRem` to its operation. */
  lemma DispatchZRem(ks: Keyspace, now: int, key: string, member: string)
    ensures var s := SortedSetOperations.ZRem(ks, now, key, member);
      RunUpdate(ks, now, ZRem(key, member)) == Step(Count(s.result), s.store)
  {
    var c := ZRem(key, member);
    assert !IsStringCommand(c) && !IsListCommand(c) && !IsSetCommand(c) && !IsHashCommand(c);
  }

  /** The sorted-set writes forward to `SortedSetOperations`; `ZRem` is the
      single-member overload. */
  lemma ExecuteForwardsSortedSetUpdates(e: Engine, now: int, key: string, member: string, score: SortedDictionary.Score, items: seq<(SortedDictionary.Score, string)>)
    ensures var s := SortedSetOperations.ZAdd(e.keyspace, key, member, score);
      Execute(e, now, ZAdd(key, member, score)) == Outcome(Count(s.result), e.(keyspace := s.store))
    ensures var s := SortedSetOperations.ZAddMany(e.keyspace, key, items);
      Execute(e, now, ZAddMany(key, items)) == Outcome(Count(s.result), e.(keyspace := s.store))
    ensures var s := SortedSetOperations.ZRem(e.keyspace, now, key, member);
      Execute(e, now, ZRem(key, member)) == Outcome(Count(s.result), e.(keyspace := s.store))
  {
    ExecuteUpdate(e, now, ZAdd(key, member, score));
    ExecuteUpdate(e, now, ZAddMany(key, items));
    ExecuteUpdate(e, now, ZRem(key, member));
    DispatchZAdd(e.keyspace, now, key, member, score);
    DispatchZAddMany(e.keyspace, now, key, items);
    DispatchZRem(e.keyspace, now, key, member);
  }

  /** `RunQuery` hands `ZRange` to its operation. */
  lemma DispatchZRange(ks: Keyspace, now: int, key: string, start: int, stop: int, withScores: bool)
    ensures var s := SortedSetOperations.ZRange(ks, now, key, start, stop, withScores);
      RunQuery(ks, now, ZRange(key, start, stop, withScores)) == Step(Texts(s.result), s.store)
  {
    var c := ZRange(key, start, stop, withScores);
    assert !IsStringCommand(c) && !IsListCommand(c) && !IsSetCommand(c) && !IsHashCommand(c);
  }

  /** `RunQuery` hands `ZRevRange` to its operation. */
  lemma DispatchZRevRange(ks: Keyspace, now: int, key: string, start: int, stop: int, withScores: bool)
    ensures var s := SortedSetOperations.ZRevRange(ks, now, key, start, stop, withScores);
      RunQuery(ks, now, ZRevRange(key, start, stop, withScores)) == Step(Texts(s.result), s.store)
  {
    var c := ZRevRange(key, start, stop, withScores);
    assert !IsStringCommand(c) && !IsListCommand(c) && !IsSetCommand(c) && !IsHashCommand(c);
  }

  /** The sorted-set reads forward to `SortedSetOperations`. */
  lemma ExecuteForwardsSortedSetQueries(e: Engine, now: int, key: string, start: int, stop: int, withScores: bool)
    ensures var s := SortedSetOperations.ZRange(e.keyspace, now, key, start, stop, withScores);
      Execute(e, now, ZRange(key, start, stop, withScores)) == Outcome(Texts(s.result), e.(keyspace := s.store))
    ensures var s := SortedSetOperations.ZRevRange(e.keyspace, now, key, start, stop, withScores);
      Execute(e, now, ZRevRange(key, start, stop, withScores)) == Outcome(Texts(s.result), e.(keyspace := s.store))
  {
    ExecuteQuery(e, now, ZRange(key, start, stop, withScores));
    ExecuteQuery(e, now, ZRevRange(key, start, stop, withScores));
    DispatchZRange(e.keyspace, now, key, start, stop, withScores);
    DispatchZRevRange(e.keyspace, now, key, start, stop, withScores);
  }

  /** The publish/subscribe commands act on the registry alone: `Publish`
      answers with its flag and delivery log and changes nothing, the other
      two answer their flag and install the registry they return. */
  lemma ExecuteForwardsPubSub(e: Engine, now: int, channel: string, message: string, subscriber: SubscriberId)
    ensures var p := Publish(e.subscribers, channel, message);
      Execute(e, now, CmdPublish(channel, message)) == Outcome(Published(p.0, p.1), e)
    ensures var s := Subscribe(e.subscribers, channel, subscriber);
      Execute(e, now, CmdSubscribe(channel, subscriber)) == Outcome(Flag(true), e.(subscribers := s.1))
    ensures var u := Unsubscribe(e.subscribers, channel);
      Execute(e, now, CmdUnsubscribe(channel)) == Outcome(Flag(u.0), e.(subscribers := u.1))
  {
  }

  /** `GetExpirationAsync` answers exactly as `TTLAsync`. */
  lemma GetExpirationIsTtl(e: Engine, now: int, key: string)
    ensures Execute(e, now, GetExpiration(key)) == Execute(e, now, Ttl(key))
  {
  }

  /** A query never changes what an observer sees in the keyspace, nor the registry. */
  lemma QueriesKeepLiveView(e: Engine, now: int, c: Command)
    requires IsQuery(c)
    ensures Live(Execute(e, now, c).engine.keyspace, now) == Live(e.keyspace, now)
    ensures Execute(e, now, c).engine.subscribers == e.subscribers
  {
    EvictionIsInvisible(e.keyspace, Execute(e, now, c).engine.keyspace, now, c.key);
  }

  /** No command ever leaves a registered channel without subscribers. */
  lemma NoEmptyChannelPreserved(e: Engine, now: int, c: Command)
    requires NoEmptyChannel(e.subscribers)
    ensures NoEmptyChannel(Execute(e, now, c).engine.subscribers)
  {
  }

  /** Under that invariant a successful publish reaches at least one subscriber. */
  lemma PublishReachesSomeone(reg: Registry, channel: string, message: string)
    requires NoEmptyChannel(reg)
    ensures Publish(reg, channel, message).0 ==> |Publish(reg, channel, message).1| > 0
  {
  }

  /** After `Unsubscribe`, publishing on that channel fails and calls nobody. */
  lemma UnsubscribeThenPublish(reg: Registry, channel: string, message: string)
    ensures Publish(Unsubscribe(reg, channel).1, channel, message) == (false, [])
  {
  }

  /** A new subscriber receives the next message on its channel, after
      everybody who subscribed before it. */
  lemma SubscribeThenPublish(reg: Registry, channel: string, subscriber: SubscriberId, message: string)
    ensures var after := Subscribe(reg, channel, subscriber).1;
      var p := Publish(after, channel, message);
      && p.0
      && |p.1| == (if channel in reg then |reg[channel]| else 0) + 1
      && p.1[|p.1| - 1] == Delivery(subscriber, channel, message)
      && (channel in reg ==> p.1[..|p.1| - 1] == Publish(reg, channel, message).1)
  {
  }

  /** `SMembersAsync` at the facade: the member set copied into an array.
      Each member appears exactly once; the order is the set's enumeration
      order, which the C# implementation leaves unspecified. */
  method SMembersArray(e: Engine, now: int, key: string) returns (arr: seq<string>, after: Engine)
    ensures Elems(arr) == SetOperations.SMembers(e.keyspace, now, key).result
    ensures forall i, j :: 0 <= i < j < |arr| ==> arr[i] != arr[j]
    ensures |arr| == |SetOperations.SMembers(e.keyspace, now, key).result|
    ensures after == e.(keyspace := SetOperations.SMembers(e.keyspace, now, key).store)
  {
    var s := SetOperations.SMembers(e.keyspace, now, key);
    arr := SetToSequence(s.result);
    after := e.(keyspace := s.store);
  }
}
