# redis-clone keyspace engine in Dafny

This project models the in-memory keyspace engine of the C# redis-clone. The keyspace maps each key to a value record (`RedisValue`). Each record has a kind tag, five payloads side by side (string, list, set, hash, sorted set) and an optional expiry instant. Lookups go through `TryGetValue`, which evicts an expired entry when it finds one. On top of that sit five command modules (key/string, list, set, hash, sorted set) and the `RedisStore` facade. The facade dispatches commands, keeps the publish/subscribe registry, answers the transaction commands with success and fails every command it does not implement.

Every command is a pure function. It takes the keyspace, the current instant `now` and its arguments, and returns a `Step(result, store)`: the answer together with the keyspace it leaves behind. The facade does the same over an `Engine`, which pairs the keyspace with the channel registry.

The model follows the code as written, quirks included:
- `GetAsync` returns the string payload of a record of any kind.
- `LIndexAsync` reads the raw entry with no kind or expiry check.
- `LPushAsync`, `HSetAsync` and both `ZAddAsync` forms write into whatever record already exists. They change neither its kind nor its expiry.
- `RPushAsync` on a fresh key creates a record of the default kind, `String`.
- `SAddAsync` turns a record of another kind into a Set record with no members. It keeps the string payload and the expiry.
- `DeleteAsync`, `TTLAsync` and `SetExpirationAsync` never evict.

`RPushAsync` on a fresh key creates a record of kind `String`, the enum default (ListOperations.cs:30), whereas `LPushAsync` creates a `List` record (ListOperations.cs:17). `RPushOnFreshKey` states the consequence: `LRange`, `LPop` and `RPop` see no list there, while `LIndex` reads the pushed values.

Files:
- `common.dfy`: `Option`, the element set of a sequence, reversal, and the copy of a set into a sequence.
- `ordering.dfy`: the member order of the sorted dictionary, proved a strict total order.
- `sorted_dictionary.dfy`: the `SortedDictionary<string, double>` payload as a member-ordered association list.
- `stable_sort.dfy`: `OrderBy` and `OrderByDescending` by score.
- `redis_value.dfy`: the record and its expiry.
- `base_store.dfy`: the keyspace, `TryGetValue` and `GetOrAdd`.
- `key_operations.dfy`, `list_operations.dfy`, `set_operations.dfy`, `hash_operations.dfy` and `sorted_set_operations.dfy`: the five command modules.
- `ranges.dfy`: the start/stop clamping shared by `LRange`, `ZRange` and `ZRevRange`.
- `redis_store.dfy`: the facade.

## Model

| member | source | states |
|---|---|---|
| `Values.Default` | src/RedisClone.Core/Models/RedisValue.cs:16-22 | a new record has empty list, set, hash and sorted-set payloads, no string and no expiry, and its kind is the lowest-numbered enum member |
| `Values.New` | src/RedisClone.Core/Models/RedisValue.cs:8-22 | a record built with only its kind set has that kind and otherwise the constructor's defaults |
| `Values.DefaultKindIsString` | src/RedisClone.Core/Models/RedisValue.cs:30-37 | a record whose kind was never set is a String record |
| `Values.ExpiryBoundary` | src/RedisClone.Core/Models/RedisValue.cs:24-27 | a record without expiry never expires; at the expiry instant a record is still live, and one tick later it is expired |
| `Values.ExpiryIsPermanent` | src/RedisClone.Core/Models/RedisValue.cs:26 | once expired, a record stays expired at every later instant |
| `BaseStore.TryGetValue` | src/RedisClone.Infrastructure/BaseRedisStore.cs:19-32 | finds exactly the live entries; the keyspace left behind is `Evict`'s: an expired entry is removed and reported absent, and nothing else changes; what an observer sees is unchanged |
| `BaseStore.TryGetValueIdempotent` | src/RedisClone.Infrastructure/BaseRedisStore.cs:21-31 | a second lookup at the same instant finds the same thing and changes nothing more |
| `BaseStore.Evict` | src/RedisClone.Infrastructure/BaseRedisStore.cs:23-28 | after a lookup the key is gone exactly when its record had expired, and every other entry is kept with its record |
| `BaseStore.EvictionIsInvisible` | src/RedisClone.Infrastructure/BaseRedisStore.cs:23-28 | evicting an expired entry leaves the live view of the keyspace the same |
| `ListOperations.PushesWriteGetOrAdd` | src/RedisClone.Infrastructure/ListOperations.cs:15-32 | `LPushAsync` writes into the record `GetOrAdd` yields (the existing record of any kind or expiry, else a new List record) and `RPushAsync` into the existing record or a new default one; each changes only that record's list, by a head insert or an append |
| `HashOperations.HSetWritesGetOrAdd` | src/RedisClone.Infrastructure/HashOperations.cs:15-24 | `HSetAsync` writes into the record `GetOrAdd` yields (the existing record of any kind or expiry, else a new Hash record) and changes only that record's hash, by binding the one field |
| `SortedSetOperations.ZAddsWriteGetOrAdd` | src/RedisClone.Infrastructure/SortedSetOperations.cs:16-54 | both `ZAddAsync` forms write into the record `GetOrAdd` yields (the existing record of any kind or expiry, else a new SortedSet record) and change only its dictionary: the single form rebinds the member, the variadic form adds exactly the items' members |
| `KeyOperations.Set` | src/RedisClone.Infrastructure/KeyOperations.cs:14-24 | always succeeds; the key then holds a String record with the value and empty other payloads; a given expiration `d` makes it expire at `now + d`, and without one any prior expiry is gone; no other key changes |
| `KeyOperations.Get` | src/RedisClone.Infrastructure/KeyOperations.cs:26-33 | the string payload of a live record of any kind, nothing for an absent or expired key; an expired key is evicted, and nothing else changes |
| `KeyOperations.Delete` | src/RedisClone.Infrastructure/KeyOperations.cs:35-38 | true iff the raw entry existed, expired or not; afterwards the key is absent and the others are unchanged |
| `KeyOperations.Exists` | src/RedisClone.Infrastructure/KeyOperations.cs:40-43 | true iff the key holds a live record; an expired key is evicted, and nothing else changes |
| `KeyOperations.Ttl` | src/RedisClone.Infrastructure/KeyOperations.cs:45-53 | a time left exists iff the raw entry has an expiry still in the future; it is positive, and adding it to `now` gives the expiry |
| `KeyOperations.SetExpiration` | src/RedisClone.Infrastructure/KeyOperations.cs:55-63 | false and no change on an absent key; otherwise true, and the raw entry, expired or not, gets expiry `now + d` with kind and payloads kept |
| `KeyOperations.RemoveExpiration` | src/RedisClone.Infrastructure/KeyOperations.cs:65-73 | false and no change on an absent key; otherwise true, and the entry loses its expiry with everything else kept |
| `KeyOperations.SetThenGet` | tests/RedisClone.UnitTests/RedisStoreTests.cs:19-31 | a value set without expiration is read back at every later instant |
| `KeyOperations.SetWithExpirationThenGet` | src/RedisClone.Infrastructure/KeyOperations.cs:20 | a value set with expiration `d` is read up to `now + d`; the first read after that returns nothing and evicts the key |
| `KeyOperations.SetWithExpirationThenTtl` | src/RedisClone.Infrastructure/KeyOperations.cs:45-53 | right after a set with expiration `d`, the time left is `d` when `d` is positive and nothing otherwise |
| `KeyOperations.DeleteThenGet` | tests/RedisClone.UnitTests/RedisStoreTests.cs:34-48 | after a delete the key reads as absent, and a second delete reports false |
| `KeyOperations.DeleteSeesExpiredEntry` | src/RedisClone.Infrastructure/KeyOperations.cs:35-43 | an expired entry still counts as deleted, although `Exists` already reports it absent |
| `KeyOperations.TtlAtExpiryInstant` | src/RedisClone.Infrastructure/KeyOperations.cs:47-50 | at the expiry instant no time left is reported, yet the record still exists and is read |
| `KeyOperations.TtlImpliesLive` | src/RedisClone.Infrastructure/KeyOperations.cs:45-53 | a reported time left implies the key exists |
| `KeyOperations.SetExpirationRevives` | src/RedisClone.Infrastructure/KeyOperations.cs:55-63 | giving an expired entry a new expiry makes it live again, because the raw entry is used |
| `KeyOperations.SetExpirationThenGet` | tests/RedisClone.UnitTests/RedisStoreTests.cs:51-71 | a permanent value given expiration `d` succeeds, is read up to `now + d`, and is gone after that |
| `KeyOperations.RemoveExpirationMakesPermanent` | src/RedisClone.Infrastructure/KeyOperations.cs:65-73 | after its expiry is removed an entry exists at every instant |
| `Ranges.Window` | src/RedisClone.Infrastructure/ListOperations.cs:86-94 | the clamped window never outgrows the sequence; it holds consecutive elements from `max(0, start)`; a position is inside it iff it is at or after `start` and at or before `stop` (a negative stop meaning the end) |
| `Ranges.WholeWindow` | src/RedisClone.Infrastructure/ListOperations.cs:87-93 | the window (0, -1) is the whole sequence |
| `ListOperations.LPush` | src/RedisClone.Infrastructure/ListOperations.cs:15-24 | the list becomes the value followed by the old list, and its new length is returned; an existing record keeps kind and expiry; a fresh key gets a List record |
| `ListOperations.RPush` | src/RedisClone.Infrastructure/ListOperations.cs:26-44 | the list becomes the old list followed by the values in argument order, and its new length is returned; a fresh key gets a record of the default kind String |
| `ListOperations.LPop` | src/RedisClone.Infrastructure/ListOperations.cs:46-61 | returns the head iff a live List record has a non-empty list, leaving the tail in the record; otherwise returns nothing, evicts the key if its record has expired, and changes nothing else |
| `ListOperations.RPop` | src/RedisClone.Infrastructure/ListOperations.cs:63-78 | returns the last element iff a live List record has a non-empty list, leaving the prefix; otherwise returns nothing, evicts the key if its record has expired, and changes nothing else |
| `ListOperations.LRange` | src/RedisClone.Infrastructure/ListOperations.cs:80-98 | the clamped window of a live List record's list, empty for an absent, expired or non-List key; the only change is the eviction of an expired key |
| `ListOperations.LIndex` | src/RedisClone.Infrastructure/ListOperations.cs:100-121 | an element exists iff the raw entry exists and the index lies in `[-len, len)`; a negative index counts from the end |
| `ListOperations.LPushTwiceThenRange` | src/RedisClone.Infrastructure/ListOperations.cs:15-23 | two left pushes on a fresh key read back newest first |
| `ListOperations.RPushThenRange` | src/RedisClone.Infrastructure/ListOperations.cs:26-43 | a right push onto a live list reads back as the old elements followed by the values in argument order |
| `ListOperations.RPushOnFreshKey` | src/RedisClone.Infrastructure/ListOperations.cs:28-31 | a right push on a fresh key is invisible to `LRange`, `LPop` and `RPop`, while `LIndex(0)` returns the first pushed value |
| `ListOperations.LPushThenLPop` | src/RedisClone.Infrastructure/ListOperations.cs:46-61 | a left pop undoes a left push on a live list: it returns the value and restores the keyspace exactly |
| `ListOperations.RPushThenRPop` | src/RedisClone.Infrastructure/ListOperations.cs:63-78 | a right pop undoes a one-value right push on a live list: it returns the value and restores the keyspace exactly |
| `ListOperations.LIndexAgreesWithRange` | src/RedisClone.Infrastructure/ListOperations.cs:100-121 | on a live list, the element at a valid index is the one-element range at that index |
| `ListOperations.LIndexNegative` | src/RedisClone.Infrastructure/ListOperations.cs:109-112 | index `i < 0` reads position `len + i`, and index -1 is what `RPop` would return |
| `SetOperations.AddMembers` | src/RedisClone.Infrastructure/SetOperations.cs:28-40 | adding the arguments one by one yields the old members plus all arguments, and counts exactly the distinct arguments that were new |
| `SetOperations.SAdd` | src/RedisClone.Infrastructure/SetOperations.cs:15-41 | the record becomes a Set record; its members are the prior Set members (none if it was another kind) plus the arguments; the count is the distinct new arguments; string payload and expiry are kept; no other key changes |
| `SetOperations.SRem` | src/RedisClone.Infrastructure/SetOperations.cs:43-53 | 1 iff a live Set record contains the member, which is then removed; otherwise 0, and the only change is the eviction of an expired key |
| `SetOperations.SMembers` | src/RedisClone.Infrastructure/SetOperations.cs:55-62 | the members of a live Set record, empty for an absent, expired or non-Set key; the only change is the eviction of an expired key |
| `SetOperations.SIsMember` | src/RedisClone.Infrastructure/SetOperations.cs:64-71 | true iff a live Set record contains the member; the only change is the eviction of an expired key |
| `SetOperations.IsMemberAgreesWithMembers` | src/RedisClone.Infrastructure/SetOperations.cs:55-71 | the membership test and the member listing agree, and leave the same keyspace |
| `SetOperations.SAddTwice` | src/RedisClone.Infrastructure/SetOperations.cs:33-36 | adding one member twice on a fresh key counts 1 then 0 and leaves exactly that member |
| `SetOperations.SAddIdempotent` | src/RedisClone.Infrastructure/SetOperations.cs:31-37 | repeating an add counts 0 and leaves the keyspace as it was |
| `SetOperations.SAddThenIsMember` | tests/RedisClone.UnitTests/RedisStoreTests.cs:89-105 | after an add on a fresh or live key every argument is a member |
| `SetOperations.SAddOnExpiredRecord` | src/RedisClone.Infrastructure/SetOperations.cs:17-26 | an add keeps the expiry it finds, so on an expired record the next read evicts the key and finds no members |
| `SetOperations.SAddCoercesKind` | src/RedisClone.Infrastructure/SetOperations.cs:22-26 | an add on a live record of another kind discards its members, answers from the arguments alone and keeps the string payload |
| `SetOperations.SAddThenSRem` | src/RedisClone.Infrastructure/SetOperations.cs:43-53 | removing a member undoes adding it to a live set that lacked it, and afterwards the member is absent |
| `HashOperations.HSet` | src/RedisClone.Infrastructure/HashOperations.cs:15-24 | always succeeds; the field is bound to the value and every other field is unchanged; an existing record keeps its kind and expiry; a fresh key gets a Hash record holding only that field |
| `HashOperations.HGet` | src/RedisClone.Infrastructure/HashOperations.cs:26-33 | the field's value iff a live Hash record has the field, otherwise nothing; the only change is the eviction of an expired key |
| `HashOperations.HGetAll` | src/RedisClone.Infrastructure/HashOperations.cs:35-42 | a copy of a live Hash record's fields, empty for an absent, expired or non-Hash key; the only change is the eviction of an expired key |
| `HashOperations.HDel` | src/RedisClone.Infrastructure/HashOperations.cs:44-51 | true iff a live Hash record had the field; the field is gone afterwards and nothing else changes; without a live Hash record the only change is the eviction of an expired key |
| `HashOperations.HSetThenHGet` | tests/RedisClone.UnitTests/RedisStoreTests.cs:108-125 | a field set on a fresh key is read back and is the hash's only field |
| `HashOperations.HSetThenHGetLive` | src/RedisClone.Infrastructure/HashOperations.cs:15-42 | on a live hash, a field just set reads back, every other field keeps its value, and the full copy is the old fields with that one rebound |
| `HashOperations.HSetOnOtherKind` | src/RedisClone.Infrastructure/HashOperations.cs:17-21 | setting a field on a record of another kind keeps that kind, so the field cannot be read back |
| `HashOperations.HGetAgreesWithHGetAll` | src/RedisClone.Infrastructure/HashOperations.cs:26-42 | reading one field agrees with looking it up in the full copy |
| `HashOperations.HDelThenHGet` | src/RedisClone.Infrastructure/HashOperations.cs:44-51 | after a field is deleted it reads as absent |
| `Ordering.StrLtIrreflexive` | src/RedisClone.Infrastructure/SortedSetOperations.cs:21 | no member name sorts before itself |
| `Ordering.StrLtTransitive` | src/RedisClone.Infrastructure/SortedSetOperations.cs:21 | the member order is transitive |
| `Ordering.StrLtTotal` | src/RedisClone.Infrastructure/SortedSetOperations.cs:21 | any two distinct member names are ordered one way or the other |
| `Ordering.StrLtAsymmetric` | src/RedisClone.Infrastructure/SortedSetOperations.cs:21 | two names are never ordered both ways |
| `SortedDictionary.ToMapKeys` | src/RedisClone.Core/Models/RedisValue.cs:13 | the dictionary binds exactly the listed members |
| `SortedDictionary.ContainsKey` | src/RedisClone.Infrastructure/SortedSetOperations.cs:26 | true iff the member is bound in the dictionary |
| `SortedDictionary.Put` | src/RedisClone.Infrastructure/SortedSetOperations.cs:27 | writing a member keeps the entries in strict member order and adds the member to the member set |
| `SortedDictionary.PutUpdates` | src/RedisClone.Infrastructure/SortedSetOperations.cs:27 | after `dict[member] = score` the member is bound to the score and every other binding is unchanged |
| `SortedDictionary.Remove` | src/RedisClone.Infrastructure/SortedSetOperations.cs:59 | removing a member keeps the order and drops exactly that member |
| `SortedDictionary.RemoveDeletes` | src/RedisClone.Infrastructure/SortedSetOperations.cs:59 | after removal the member is unbound and every other binding is unchanged |
| `SortedDictionary.PutAllCounts` | src/RedisClone.Infrastructure/SortedSetOperations.cs:42-51 | the pair loop binds the old members plus every named member, and counts the distinct named members that were not bound before |
| `SortedDictionary.PutAllScores` | src/RedisClone.Infrastructure/SortedSetOperations.cs:43-50 | each named member ends with the score of the last pair naming it, and any other member keeps its score |
| `SortedDictionary.PutAllBindings` | src/RedisClone.Infrastructure/SortedSetOperations.cs:40-52 | the same for all members at once |
| `StableSort.Insert` | src/RedisClone.Infrastructure/SortedSetOperations.cs:68 | one insertion step keeps every entry and adds the inserted one |
| `StableSort.InsertSorted` | src/RedisClone.Infrastructure/SortedSetOperations.cs:68 | inserting an entry whose member sorts before every member already placed keeps the sequence in sort order |
| `StableSort.Sort` | src/RedisClone.Infrastructure/SortedSetOperations.cs:68 | the stable sort is a permutation of the dictionary's entries, ordered by score and by member among equal scores (score descending for `OrderByDescending`) |
| `StableSort.SortedUnique` | src/RedisClone.Infrastructure/SortedSetOperations.cs:91 | two sequences with the same entries, both in sort order, are equal, so the order fixes the range completely |
| `StableSort.DistinctScoresReverse` | src/RedisClone.Infrastructure/SortedSetOperations.cs:91 | with pairwise distinct scores the descending sort is the ascending sort reversed |
| `SortedSetOperations.ZAdd` | src/RedisClone.Infrastructure/SortedSetOperations.cs:16-30 | 1 iff the member was not bound before, else 0; afterwards it is bound to the score with all other bindings kept; an existing record keeps its kind and expiry |
| `SortedSetOperations.ZAddMany` | src/RedisClone.Infrastructure/SortedSetOperations.cs:32-53 | counts the distinct members not bound before the call; binds each named member to the score of its last pair; keeps every other member's score |
| `SortedSetOperations.ZRem` | src/RedisClone.Infrastructure/SortedSetOperations.cs:55-62 | 1 iff a live SortedSet record binds the member, which is then unbound; otherwise 0, and the only change is the eviction of an expired key |
| `SortedSetOperations.RangeEntries` | src/RedisClone.Infrastructure/SortedSetOperations.cs:66-75 | a range selects the clamped window of the stably sorted entries; it is empty for an absent, expired or non-SortedSet key, and never longer than the member count; the only change is the eviction of an expired key |
| `SortedSetOperations.ZRange` | src/RedisClone.Infrastructure/SortedSetOperations.cs:64-85 | the rendered window of the ascending sort, empty for an absent, expired or non-SortedSet key, never longer than the member count; the only change is the eviction of an expired key |
| `SortedSetOperations.ZRevRange` | src/RedisClone.Infrastructure/SortedSetOperations.cs:87-108 | the rendered window of the descending sort, empty for an absent, expired or non-SortedSet key, never longer than the member count; the only change is the eviction of an expired key |
| `SortedSetOperations.WholeRangeIsSorted` | src/RedisClone.Infrastructure/SortedSetOperations.cs:68-75 | the range (0, -1) lists every entry exactly once, in sort order |
| `SortedSetOperations.RangeOrder` | src/RedisClone.Infrastructure/SortedSetOperations.cs:68-75 | in any range, scores never decrease (never increase when descending), and equal scores list members in member order |
| `SortedSetOperations.WithScoresOnlyRenders` | src/RedisClone.Infrastructure/SortedSetOperations.cs:77-81 | rendering with scores keeps the count and order and turns each member into `member:score` |
| `SortedSetOperations.RevRangeReversesRange` | src/RedisClone.Infrastructure/SortedSetOperations.cs:87-108 | with pairwise distinct scores, the full reverse range is the full range reversed |
| `SortedSetOperations.ZAddTwiceThenRange` | src/RedisClone.Infrastructure/SortedSetOperations.cs:16-30 | adding a member twice on a fresh key counts 1 then 0, and the range with scores shows the second score |
| `SortedSetOperations.ZAddManySingle` | src/RedisClone.Infrastructure/SortedSetOperations.cs:32-53 | the variadic add with one pair behaves exactly as the single add |
| `SortedSetOperations.OneMemberRanges` | tests/RedisClone.UnitTests/RedisStoreTests.cs:128-146 | one pair added on a fresh key counts 1 and is the whole range in both directions |
| `RedisStore.Deliveries` | src/RedisClone.Infrastructure/RedisStore.cs:115-118 | every subscriber in the list is called once with the message, in list order |
| `RedisStore.Publish` | src/RedisClone.Infrastructure/RedisStore.cs:111-122 | true iff the channel is registered; then each subscriber is called once in subscription order, and otherwise nobody is called |
| `RedisStore.Subscribe` | src/RedisClone.Infrastructure/RedisStore.cs:124-132 | always true; exactly one subscriber is appended to the channel, which is created when absent; other channels are unchanged |
| `RedisStore.Unsubscribe` | src/RedisClone.Infrastructure/RedisStore.cs:134-137 | true iff the channel was registered; the whole channel entry is removed and other channels are unchanged |
| `RedisStore.Execute` | src/RedisClone.Infrastructure/RedisStore.cs:33-380 | only unimplemented commands fail, and they change nothing; transactions succeed and change nothing; pub/sub commands leave the keyspace alone; keyspace commands leave the registry and every other key alone; queries at most evict the key they read (`TTLAsync`, `GetExpirationAsync` and `LIndexAsync` never do); the `ExecuteForwards…` lemmas state what each implemented command answers |
| `RedisStore.ExecuteForwardsKeyUpdates` | src/RedisClone.Infrastructure/RedisStore.cs:33-40 | `SetAsync` and `DeleteAsync` answer what `KeyOperations.Set` and `Delete` answer and leave the keyspace they leave |
| `RedisStore.ExecuteForwardsExpiryUpdates` | src/RedisClone.Infrastructure/RedisStore.cs:48-52 | `SetExpirationAsync` and `RemoveExpirationAsync` answer and change the keyspace exactly as their `KeyOperations` counterparts |
| `RedisStore.ExecuteForwardsKeyQueries` | src/RedisClone.Infrastructure/RedisStore.cs:36-46 | `GetAsync` and `ExistsAsync` answer and evict exactly as `KeyOperations.Get` and `Exists`; `TTLAsync` answers `KeyOperations.Ttl` and changes nothing |
| `RedisStore.ExecuteForwardsListPushes` | src/RedisClone.Infrastructure/RedisStore.cs:54-58 | the single-value `LPushAsync` and `RPushAsync` return the new length computed by `ListOperations` and leave its keyspace |
| `RedisStore.ExecuteForwardsListPops` | src/RedisClone.Infrastructure/RedisStore.cs:60-64 | `LPopAsync` and `RPopAsync` answer and change the keyspace exactly as `ListOperations.LPop` and `RPop` |
| `RedisStore.ExecuteForwardsListRange` | src/RedisClone.Infrastructure/RedisStore.cs:66-67 | `LRangeAsync` answers the window `ListOperations.LRange` computes and leaves its keyspace |
| `RedisStore.ExecuteForwardsListIndex` | src/RedisClone.Infrastructure/RedisStore.cs:222-223 | `LIndexAsync` answers `ListOperations.LIndex` and changes nothing |
| `RedisStore.ExecuteForwardsSetUpdates` | src/RedisClone.Infrastructure/RedisStore.cs:69-73 | `SAddAsync` and the single-member `SRemAsync` answer and change the keyspace exactly as `SetOperations.SAdd` and `SRem` |
| `RedisStore.ExecuteForwardsSetQueries` | src/RedisClone.Infrastructure/RedisStore.cs:75-82 | `SMembersAsync` answers the member set of `SetOperations.SMembers` and `SIsMemberAsync` the answer of `SIsMember`, each with its keyspace; the copy into an array is `SMembersArray` |
| `RedisStore.ExecuteForwardsHashUpdates` | src/RedisClone.Infrastructure/RedisStore.cs:84-94 | `HSetAsync` and the single-field `HDelAsync` answer and change the keyspace exactly as `HashOperations.HSet` and `HDel` |
| `RedisStore.ExecuteForwardsHashQueries` | src/RedisClone.Infrastructure/RedisStore.cs:87-91 | `HGetAsync` and `HGetAllAsync` answer and evict exactly as `HashOperations.HGet` and `HGetAll` |
| `RedisStore.ExecuteForwardsSortedSetUpdates` | src/RedisClone.Infrastructure/RedisStore.cs:96-103 | both `ZAddAsync` forms and the single-member `ZRemAsync` answer and change the keyspace exactly as their `SortedSetOperations` counterparts |
| `RedisStore.ExecuteForwardsSortedSetQueries` | src/RedisClone.Infrastructure/RedisStore.cs:105-109 | `ZRangeAsync` and `ZRevRangeAsync` answer and evict exactly as `SortedSetOperations.ZRange` and `ZRevRange` |
| `RedisStore.ExecuteForwardsPubSub` | src/RedisClone.Infrastructure/RedisStore.cs:111-137 | `PublishAsync` answers the flag and delivery log of `Publish` and changes nothing; `SubscribeAsync` answers true and installs `Subscribe`'s registry; `UnsubscribeAsync` answers `Unsubscribe`'s flag and installs its registry |
| `RedisStore.GetExpirationIsTtl` | src/RedisClone.Infrastructure/RedisStore.cs:154-155 | `GetExpirationAsync` answers exactly as `TTLAsync` and changes nothing else |
| `RedisStore.QueriesKeepLiveView` | src/RedisClone.Infrastructure/BaseRedisStore.cs:23-28 | a query never changes the live view of the keyspace or the registry |
| `RedisStore.NoEmptyChannelPreserved` | src/RedisClone.Infrastructure/RedisStore.cs:124-137 | no command leaves a registered channel without subscribers |
| `RedisStore.PublishReachesSomeone` | src/RedisClone.Infrastructure/RedisStore.cs:113-119 | when no channel is empty, a successful publish calls at least one subscriber |
| `RedisStore.UnsubscribeThenPublish` | src/RedisClone.Infrastructure/RedisStore.cs:134-137 | after unsubscribing a channel, publishing on it fails and calls nobody |
| `RedisStore.SubscribeThenPublish` | tests/RedisClone.UnitTests/RedisStoreTests.cs:149-173 | after a subscription, a publish on the channel succeeds; the earlier subscribers are called first, in order, and the new one last |
| `Common.SetToSequence` | src/RedisClone.Infrastructure/RedisStore.cs:78 | `ToArray` on a set lists every element exactly once, so the array is as long as the set |
| `RedisStore.SMembersArray` | src/RedisClone.Infrastructure/RedisStore.cs:75-79 | the array holds each member of the set exactly once, and the keyspace is left as the set read leaves it |

## Left out

- Concurrency: the concurrent dictionary and the `lock` blocks. The atomicity of `GetOrAdd`, `TryAdd`, `TryUpdate` and `TryRemove` becomes plain sequential map updates, so the `TryAdd || TryUpdate` in `SetAsync` is an unconditional overwrite.
- `async` and `Task`: the model is synchronous. They add no logic.
- The clock: `DateTime.UtcNow` is the parameter `now`. Instants and `TimeSpan` durations are integers in one unit. `TotalSeconds > 0` becomes "remaining ticks > 0", and `DateTime` overflow in `UtcNow.Add` is not modelled.
- Scores: they are `double` in the C# implementation and integers here. NaN, infinities and rounding are not modelled.
- `SortedSetOperations.ZRange`: the text of a score with scores is its decimal rendering (`ScoreText`), not .NET's culture-dependent `double.ToString`.
- `Ordering.StrLtTotal`: the culture-sensitive default string comparer of the sorted dictionary is replaced by the ordinal order on characters. Only its strict total order is relied on.
- Range arguments: the `(int)` casts of `long` range arguments are left out. Indices are assumed to fit in an `int`.
- Dead null-payload branches: the `ListValue == null` branches in `RPushAsync` and `LIndexAsync` and the `SetValue != null` guards are not modelled, because the constructor always initialises these payloads.
- Pub/sub callbacks: their bodies and the fire-and-forget asynchronous delivery are not modelled. Subscribers are opaque ids, and a publish returns the log of the calls it makes. The id of a new subscriber is the caller's choice.
- `RedisStore.SMembersArray`: the order of the array is the enumeration order of a `HashSet`, which the C# implementation leaves unspecified. The method picks members in an arbitrary order.
- The `string[]` overloads of `ZRangeAsync` and `ZRevRangeAsync` (RedisStore.cs:330-340) copy the same range into an array; the `ZRange` and `ZRevRange` commands stand for both overloads.
- Unimplemented facade commands: every command that throws `NotImplementedException` gives one `NotImplemented` reply. This covers the string arithmetic, the bit operations, `LLen`/`LSet`/`LRem`/`LTrim`, the set algebra, `HExists`/`HKeys`/…, `ZScore`/`ZRank`/the by-score ranges, the store operations and the variadic `LPush`, `SRem`, `HDel` and `ZRem` overloads. Exceptions are not modelled beyond that.
- The HTTP controller and its integration tests are not part of this model. Neither is the `IRedisStore` interface, which holds signatures only.
