/** Sorted-set commands (`SortedSetOperations`). Both `ZAdd` forms write
    through `GetOrAdd` without any kind or expiry check; `ZRem` and the range
    queries use the lazy-expiry lookup and require a live SortedSet record. */
module SortedSetOperations {
  import opened Common
  import opened Ordering
  import opened SortedDictionary
  import opened StableSort
  import opened Values
  import opened BaseStore
  import opened Ranges

  /** Two records that differ at most in their sorted-set payload. */
  predicate SameButSortedSet(a: RedisValue, b: RedisValue)
  {
    a.(sortedSetValue := []) == b.(sortedSetValue := [])
  }

  /** The scores `GetOrAdd` would find: the raw entry's, or none. */
  function RawScores(ks: Keyspace, key: string): map<string, Score>
  {
    if key in ks then ToMap(ks[key].sortedSetValue) else map[]
  }

  /** The sorted dictionary of a live SortedSet record under `key`, if there is one. */
  function LiveDict(ks: Keyspace, now: int, key: string): Option<SortedDict>
  {
    var v := LiveOfKind(ks, now, key, SortedSet);
    if v.Some? then Some(v.value.sortedSetValue) else None
  }

  /** `ZAddAsync(key, member, score)`: 1 if `member` was new, else 0; the
      member's score becomes `score` either way. */
  function ZAdd(ks: Keyspace, key: string, member: string, score: Score): (r: Step<int>)
    ensures r.result == if member in RawScores(ks, key) then 0 else 1
    ensures key in r.store && ToMap(r.store[key].sortedSetValue) == RawScores(ks, key)[member := score]
    ensures key in ks ==> SameButSortedSet(r.store[key], ks[key])
    ensures key !in ks ==> SameButSortedSet(r.store[key], New(SortedSet))
    ensures r.store - {key} == ks - {key}
  {
    var v := GetOrAdd(ks, key, New(SortedSet));
    var isNew := if ContainsKey(v.sortedSetValue, member) then 0 else 1;
    PutUpdates(v.sortedSetValue, member, score);
    Step(isNew, ks[key := v.(sortedSetValue := Put(v.sortedSetValue, member, score))])
  }

  /** `ZAddAsync(key, items)`: writes each (score, member) pair in turn, so a
      later pair for a member wins; returns the number of distinct members
      that were not present before the call. */
  function ZAddMany(ks: Keyspace, key: string, items: seq<(Score, string)>): (r: Step<int>)
    ensures r.result == |ItemMembers(items) - RawScores(ks, key).Keys|
    ensures key in r.store
    ensures ToMap(r.store[key].sortedSetValue).Keys == RawScores(ks, key).Keys + ItemMembers(items)
    ensures forall m :: m in ItemMembers(items) ==> ToMap(r.store[key].sortedSetValue)[m] == LastScore(items, m)
    ensures forall m :: m in RawScores(ks, key) && m !in ItemMembers(items) ==>
      ToMap(r.store[key].sortedSetValue)[m] == RawScores(ks, key)[m]
    ensures key in ks ==> SameButSortedSet(r.store[key], ks[key])
    ensures key !in ks ==> SameButSortedSet(r.store[key], New(SortedSet))
    ensures r.store - {key} == ks - {key}
  {
    var v := GetOrAdd(ks, key, New(SortedSet));
    var added := PutAll(v.sortedSetValue, items);
    PutAllCounts(v.sortedSetValue, items);
    PutAllBindings(v.sortedSetValue, items);
    Step(added.1, ks[key := v.(sortedSetValue := added.0)])
  }

  /** Both `ZAdd` forms write into the record `GetOrAdd` yields (the raw
      entry, or a fresh SortedSet record) and change nothing of it but its
      dictionary. */
  lemma ZAddsWriteGetOrAdd(ks: Keyspace, key: string, member: string, score: Score, items: seq<(Score, string)>)
    ensures SameButSortedSet(ZAdd(ks, key, member, score).store[key], GetOrAdd(ks, key, New(SortedSet)))
    ensures ToMap(ZAdd(ks, key, member, score).store[key].sortedSetValue) ==
      ToMap(GetOrAdd(ks, key, New(SortedSet)).sortedSetValue)[member := score]
    ensures SameButSortedSet(ZAddMany(ks, key, items).store[key], GetOrAdd(ks, key, New(SortedSet)))
    ensures ToMap(ZAddMany(ks, key, items).store[key].sortedSetValue).Keys ==
      ToMap(GetOrAdd(ks, key, New(SortedSet)).sortedSetValue).Keys + ItemMembers(items)
  {
  }

  /** `ZRemAsync`: removes `member` from a live SortedSet record; 1 if it was there, else 0. */
  function ZRem(ks: Keyspace, now: int, key: string, member: string): (r: Step<int>)
    ensures r.result == 0 || r.result == 1
    ensures r.result == 1 <==> LiveDict(ks, now, key).Some? && member in ToMap(LiveDict(ks, now, key).value)
    ensures LiveDict(ks, now, key).Some? ==> key in r.store && SameButSortedSet(r.store[key], ks[key])
    ensures LiveDict(ks, now, key).Some? ==>
      ToMap(r.store[key].sortedSetValue) == ToMap(ks[key].sortedSetValue) - {member}
    ensures LiveDict(ks, now, key).Some? ==> r.store - {key} == ks - {key}
    ensures LiveDict(ks, now, key).None? ==> r.store == Evict(ks, now, key)
  {
    var found := TryGetValue(ks, now, key);
    if found.result.Some? && found.result.value.kind == SortedSet then
      var v := found.result.value;
      var isThere := if ContainsKey(v.sortedSetValue, member) then 1 else 0;
      RemoveDeletes(v.sortedSetValue, member);
      Step(isThere, found.store[key := v.(sortedSetValue := Remove(v.sortedSetValue, member))])
    else Step(0, found.store)
  }

  /** The entries a range query selects: the record's entries stably sorted
      by score (ascending, or descending), clamped to the window. */
  function RangeEntries(ks: Keyspace, now: int, key: string, start: int, stop: int, descending: bool): (r: Step<seq<Entry>>)
    ensures LiveDict(ks, now, key).Some? ==> r.result == Window(Sort(LiveDict(ks, now, key).value, descending), start, stop)
    ensures LiveDict(ks, now, key).None? ==> r.result == []
    ensures LiveDict(ks, now, key).Some? ==> |r.result| <= |LiveDict(ks, now, key).value|
    ensures r.store == Evict(ks, now, key)
  {
    var found := TryGetValue(ks, now, key);
    if found.result.Some? && found.result.value.kind == SortedSet then
      var sorted := Sort(found.result.value.sortedSetValue, descending);
      assert |sorted| == |multiset(sorted)| == |found.result.value.sortedSetValue|;
      Step(Window(Sort(found.result.value.sortedSetValue, descending), start, stop), found.store)
    else Step([], found.store)
  }

  function DigitChar(d: nat): char
    requires d < 10
  {
    "0123456789"[d]
  }

  function Digits(n: nat): string
    decreases n
  {
    if n < 10 then [DigitChar(n)] else Digits(n / 10) + [DigitChar(n % 10)]
  }

  /** The text of a score: its decimal digits, with a leading minus sign when negative. */
  function ScoreText(s: Score): string
  {
    if s < 0 then "-" + Digits(-s) else Digits(s)
  }

  /** One range element: `member`, or `member:score` with scores. */
  function Render(e: Entry, withScores: bool): string
  {
    if withScores then e.member + ":" + ScoreText(e.score) else e.member
  }

  function RenderAll(es: seq<Entry>, withScores: bool): (r: seq<string>)
    ensures |r| == |es|
    ensures forall i :: 0 <= i < |es| ==> r[i] == Render(es[i], withScores)
  {
    seq(|es|, i requires 0 <= i < |es| => Render(es[i], withScores))
  }

  /** `ZRangeAsync`: members of a live SortedSet record by ascending score,
      clamped like a list range; empty for anything else. */
  function ZRange(ks: Keyspace, now: int, key: string, start: int, stop: int, withScores: bool): (r: Step<seq<string>>)
    ensures LiveDict(ks, now, key).Some? ==>
      r.result == RenderAll(Window(Sort(LiveDict(ks, now, key).value, false), start, stop), withScores)
    ensures LiveDict(ks, now, key).None? ==> r.result == []
    ensures LiveDict(ks, now, key).Some? ==> |r.result| <= |LiveDict(ks, now, key).value|
    ensures r.store == Evict(ks, now, key)
  {
    var entries := RangeEntries(ks, now, key, start, stop, false);
    Step(RenderAll(entries.result, withScores), entries.store)
  }

  /** `ZRevRangeAsync`: the same with the sort descending by score before clamping. */
  function ZRevRange(ks: Keyspace, now: int, key: string, start: int, stop: int, withScores: bool): (r: Step<seq<string>>)
    ensures LiveDict(ks, now, key).Some? ==>
      r.result == RenderAll(Window(Sort(LiveDict(ks, now, key).value, true), start, stop), withScores)
    ensures LiveDict(ks, now, key).None? ==> r.result == []
    ensures LiveDict(ks, now, key).Some? ==> |r.result| <= |LiveDict(ks, now, key).value|
    ensures r.store == Evict(ks, now, key)
  {
    var entries := RangeEntries(ks, now, key, start, stop, true);
    Step(RenderAll(entries.result, withScores), entries.store)
  }

  /** The full range (0, -1) lists every entry exactly once, in the order of
      the stable sort: by score, and by member name among equal scores. */
  lemma WholeRangeIsSorted(ks: Keyspace, now: int, key: string, descending: bool)
    requires LiveDict(ks, now, key).Some?
    ensures multiset(RangeEntries(ks, now, key, 0, -1, descending).result) == multiset(ks[key].sortedSetValue)
    ensures SortedBy(RangeEntries(ks, now, key, 0, -1, descending).result, descending)
  {
    WholeWindow(Sort(ks[key].sortedSetValue, descending));
  }

  /** In the ascending range, scores never decrease and equal scores list
      members in member order; in the descending one, scores never increase. */
  lemma RangeOrder(ks: Keyspace, now: int, key: string, start: int, stop: int, descending: bool, i: int, j: int)
    requires 0 <= i < j < |RangeEntries(ks, now, key, start, stop, descending).result|
    ensures var es := RangeEntries(ks, now, key, start, stop, descending).result;
      && (if descending then es[i].score >= es[j].score else es[i].score <= es[j].score)
      && (es[i].score == es[j].score ==> StrLt(es[i].member, es[j].member))
  {
  }

  /** Rendering with scores changes each element's text only: same count,
      same order, `member:score` in place of `member`. */
  lemma WithScoresOnlyRenders(ks: Keyspace, now: int, key: string, start: int, stop: int)
    ensures |ZRange(ks, now, key, start, stop, true).result| == |ZRange(ks, now, key, start, stop, false).result|
    ensures forall i :: 0 <= i < |ZRange(ks, now, key, start, stop, true).result| ==>
      ZRange(ks, now, key, start, stop, true).result[i] ==
        ZRange(ks, now, key, start, stop, false).result[i] + ":" +
        ScoreText(RangeEntries(ks, now, key, start, stop, false).result[i].score)
  {
  }

  /** With pairwise distinct scores the full descending range is the full
      ascending range reversed. */
  lemma RevRangeReversesRange(ks: Keyspace, now: int, key: string, withScores: bool)
    requires LiveDict(ks, now, key).Some?
    requires var es := ks[key].sortedSetValue; forall i, j :: 0 <= i < j < |es| ==> es[i].score != es[j].score
    ensures ZRevRange(ks, now, key, 0, -1, withScores).result == Reverse(ZRange(ks, now, key, 0, -1, withScores).result)
  {
    var es := ks[key].sortedSetValue;
    DistinctScoresReverse(es);
    WholeWindow(Sort(es, true));
    WholeWindow(Sort(es, false));
    RenderReversed(Sort(es, false), withScores);
  }

  lemma RenderReversed(es: seq<Entry>, withScores: bool)
    ensures RenderAll(Reverse(es), withScores) == Reverse(RenderAll(es, withScores))
  {
  }

  /** `ZAdd(m, 1)` then `ZAdd(m, 2)` on a fresh key count 1 then 0, and the
      range with scores reads `m:2`. */
  lemma ZAddTwiceThenRange(ks: Keyspace, now: int, key: string)
    requires key !in ks
    ensures ZAdd(ks, key, "m", 1).result == 1
    ensures ZAdd(ZAdd(ks, key, "m", 1).store, key, "m", 2).result == 0
    ensures ZRange(ZAdd(ZAdd(ks, key, "m", 1).store, key, "m", 2).store, now, key, 0, -1, true).result == ["m:2"]
  {
    var once := ZAdd(ks, key, "m", 1).store;
    assert once[key].sortedSetValue == [Entry("m", 1)];
    var twice := ZAdd(once, key, "m", 2).store;
    assert twice[key].sortedSetValue == [Entry("m", 2)];
    assert Sort([Entry("m", 2)], false) == [Entry("m", 2)];
    assert RangeEntries(twice, now, key, 0, -1, false).result == [Entry("m", 2)];
    assert ScoreText(2) == "2";
    assert Render(Entry("m", 2), true) == "m:2";
    assert RenderAll([Entry("m", 2)], true) == ["m:2"];
  }

  /** The variadic form with one pair does what the single form does. */
  lemma ZAddManySingle(ks: Keyspace, key: string, member: string, score: Score)
    ensures ZAddMany(ks, key, [(score, member)]) == ZAdd(ks, key, member, score)
  {
    var v := GetOrAdd(ks, key, New(SortedSet));
    assert [(score, member)][1..] == [];
    assert PutAll(v.sortedSetValue, [(score, member)]) ==
      (Put(v.sortedSetValue, member, score), if ContainsKey(v.sortedSetValue, member) then 0 else 1);
  }

  /** A single pair added on a fresh key counts 1 and is the whole range both ways. */
  lemma OneMemberRanges(ks: Keyspace, now: int, key: string, member: string, score: Score)
    requires key !in ks
    ensures ZAddMany(ks, key, [(score, member)]).result == 1
    ensures ZRange(ZAddMany(ks, key, [(score, member)]).store, now, key, 0, -1, false).result == [member]
    ensures ZRevRange(ZAddMany(ks, key, [(score, member)]).store, now, key, 0, -1, false).result == [member]
  {
    ZAddManySingle(ks, key, member, score);
    var added := ZAdd(ks, key, member, score).store;
    assert added[key].sortedSetValue == [Entry(member, score)];
    assert Sort([Entry(member, score)], false) == [Entry(member, score)];
    assert Sort([Entry(member, score)], true) == [Entry(member, score)];
    assert RenderAll([Entry(member, score)], false) == [member];
  }
}
