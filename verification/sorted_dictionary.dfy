/** The sorted-set payload: a dictionary from member name to score whose
    enumeration order is the member order (`SortedDictionary<string, double>`
    in the C# implementation). It is kept as an association list strictly ordered by
    member name; `ToMap` is its abstract dictionary view. Scores, doubles in
    the C# implementation, are integers here. */
module SortedDictionary {
  import opened Common
  import opened Ordering

  type Score = int

  datatype Entry = Entry(member: string, score: Score)

  predicate StrictlyOrdered(es: seq<Entry>)
  {
    forall i, j :: 0 <= i < j < |es| ==> StrLt(es[i].member, es[j].member)
  }

  /** A sorted dictionary: entries in strictly increasing member order, hence
      each member at most once. */
  type SortedDict = es: seq<Entry> | StrictlyOrdered(es) witness []

  function Members(es: seq<Entry>): set<string>
  {
    set e | e in es :: e.member
  }

  /** The dictionary an association list stands for. */
  function ToMap(es: seq<Entry>): map<string, Score>
  {
    if es == [] then map[] else ToMap(es[1..])[es[0].member := es[0].score]
  }

  /** Members of a non-empty association list: the head's and the tail's. */
  lemma MembersSplit(es: seq<Entry>)
    requires es != []
    ensures Members(es) == {es[0].member} + Members(es[1..])
  {
  }

  lemma MembersCons(e: Entry, rest: seq<Entry>)
    ensures Members([e] + rest) == {e.member} + Members(rest)
  {
  }

  /** The dictionary view binds exactly the listed members. */
  lemma {:induction false} ToMapKeys(es: seq<Entry>)
    ensures ToMap(es).Keys == Members(es)
    decreases |es|
  {
    if es != [] {
      ToMapKeys(es[1..]);
      MembersSplit(es);
    }
  }

  /** In a sorted dictionary every later member sorts after the first. */
  lemma TailAbove(es: SortedDict)
    requires es != []
    ensures forall x :: x in Members(es[1..]) ==> StrLt(es[0].member, x)
    ensures es[0].member !in Members(es[1..])
  {
    forall x | x in Members(es[1..])
      ensures StrLt(es[0].member, x)
    {
      var e :| e in es[1..] && e.member == x;
      var j :| 0 <= j < |es[1..]| && es[1..][j] == e;
      assert es[j + 1] == e;
    }
    StrLtIrreflexive(es[0].member);
  }

  /** A name sorting before the first member sorts before them all. */
  lemma BelowHead(m: string, es: SortedDict)
    requires es != [] && StrLt(m, es[0].member)
    ensures forall x :: x in Members(es) ==> StrLt(m, x)
  {
    MembersSplit(es);
    TailAbove(es);
    forall x | x in Members(es[1..])
      ensures StrLt(m, x)
    {
      StrLtTransitive(m, es[0].member, x);
    }
  }

  /** An entry whose member precedes every member of a sorted dictionary may be put in front of it. */
  lemma PrependSmaller(e: Entry, es: SortedDict)
    requires forall x :: x in Members(es) ==> StrLt(e.member, x)
    ensures StrictlyOrdered([e] + es)
  {
  }

  /** Every entry of a sorted dictionary is its member's binding. */
  lemma {:induction false} EntryIsBinding(es: SortedDict, e: Entry)
    requires e in es
    ensures e.member in ToMap(es) && ToMap(es)[e.member] == e.score
    decreases |es|
  {
    if e != es[0] {
      assert e in es[1..];
      EntryIsBinding(es[1..], e);
      TailAbove(es);
    }
  }

  /** The dictionary's `ContainsKey`. */
  function ContainsKey(es: SortedDict, m: string): (b: bool)
    ensures b <==> m in ToMap(es)
  {
    ToMapKeys(es);
    exists e :: e in es && e.member == m
  }

  /** `dict[m] = s`: overwrites the score of an existing member, or inserts
      the member at its place in member order. */
  function Put(es: SortedDict, m: string, s: Score): (r: SortedDict)
    ensures Members(r) == Members(es) + {m}
    decreases |es|
  {
    if es == [] then [Entry(m, s)]
    else if es[0].member == m then
      MembersSplit(es);
      TailAbove(es);
      PrependSmaller(Entry(m, s), es[1..]);
      [Entry(m, s)] + es[1..]
    else if StrLt(m, es[0].member) then
      BelowHead(m, es);
      PrependSmaller(Entry(m, s), es);
      [Entry(m, s)] + es
    else
      StrLtTotal(m, es[0].member);
      var rest := Put(es[1..], m, s);
      MembersSplit(es);
      MembersCons(es[0], rest);
      TailAbove(es);
      PrependSmaller(es[0], rest);
      [es[0]] + rest
  }

  /** `Put` binds `m` to `s` and leaves every other member's score alone. */
  lemma {:induction false} PutUpdates(es: SortedDict, m: string, s: Score)
    ensures ToMap(Put(es, m, s)) == ToMap(es)[m := s]
    decreases |es|
  {
    var r := Put(es, m, s);
    if es == [] {
    } else if es[0].member == m {
      assert r[1..] == es[1..];
      assert ToMap(r) == ToMap(es[1..])[m := s];
    } else if StrLt(m, es[0].member) {
      assert r[1..] == es;
    } else {
      StrLtTotal(m, es[0].member);
      PutUpdates(es[1..], m, s);
      assert r[1..] == Put(es[1..], m, s);
      assert ToMap(r) == ToMap(es[1..])[m := s][es[0].member := es[0].score];
    }
  }

  /** `dict.Remove(m)`: drops the member's entry, if any. */
  function Remove(es: SortedDict, m: string): (r: SortedDict)
    ensures Members(r) == Members(es) - {m}
    decreases |es|
  {
    if es == [] then []
    else if es[0].member == m then
      MembersSplit(es);
      TailAbove(es);
      es[1..]
    else
      var rest := Remove(es[1..], m);
      MembersSplit(es);
      MembersCons(es[0], rest);
      TailAbove(es);
      PrependSmaller(es[0], rest);
      [es[0]] + rest
  }

  /** `Remove` unbinds `m` and leaves every other member's score alone. */
  lemma {:induction false} RemoveDeletes(es: SortedDict, m: string)
    ensures ToMap(Remove(es, m)) == ToMap(es) - {m}
    decreases |es|
  {
    if es == [] {
    } else if es[0].member == m {
      TailAbove(es);
      ToMapKeys(es[1..]);
    } else {
      RemoveDeletes(es[1..], m);
      assert Remove(es, m)[1..] == Remove(es[1..], m);
    }
  }

  /** Members named by a list of (score, member) pairs. */
  function ItemMembers(items: seq<(Score, string)>): set<string>
  {
    set i | i in items :: i.1
  }

  /** The score of the last pair in `items` that names `m`. */
  function LastScore(items: seq<(Score, string)>, m: string): Score
    requires m in ItemMembers(items)
    decreases |items|
  {
    assert items == [items[0]] + items[1..];
    if m in ItemMembers(items[1..]) then LastScore(items[1..], m) else items[0].0
  }

  /** The loop of the variadic `ZAddAsync`: each pair in turn is counted when
      its member is not yet present, then written with `dict[member] = score`. */
  function PutAll(es: SortedDict, items: seq<(Score, string)>): (r: (SortedDict, nat))
    decreases |items|
  {
    if items == [] then (es, 0)
    else
      var (score, member) := items[0];
      var isNew: nat := if ContainsKey(es, member) then 0 else 1;
      var rest := PutAll(Put(es, member, score), items[1..]);
      (rest.0, isNew + rest.1)
  }

  lemma ItemMembersSplit(items: seq<(Score, string)>)
    requires items != []
    ensures ItemMembers(items) == {items[0].1} + ItemMembers(items[1..])
  {
  }

  /** After the loop the dictionary binds the old members and every member
      named by a pair, and the count is the number of distinct named members
      that were not bound before. */
  lemma {:induction false} PutAllCounts(es: SortedDict, items: seq<(Score, string)>)
    ensures ToMap(PutAll(es, items).0).Keys == ToMap(es).Keys + ItemMembers(items)
    ensures PutAll(es, items).1 == |ItemMembers(items) - ToMap(es).Keys|
    decreases |items|
  {
    if items != [] {
      var (score, member) := items[0];
      var next := Put(es, member, score);
      PutAllCounts(next, items[1..]);
      PutUpdates(es, member, score);
      ItemMembersSplit(items);
      NewElementsStep(ToMap(es).Keys, member, ItemMembers(items[1..]));
    }
  }

  /** A later pair for a member overwrites an earlier one: every named member
      ends with the score of the last pair naming it; the others keep theirs. */
  lemma {:induction false} PutAllScores(es: SortedDict, items: seq<(Score, string)>, m: string)
    requires m in ToMap(es) || m in ItemMembers(items)
    ensures m in ToMap(PutAll(es, items).0)
    ensures ToMap(PutAll(es, items).0)[m] == if m in ItemMembers(items) then LastScore(items, m) else ToMap(es)[m]
    decreases |items|
  {
    PutAllCounts(es, items);
    if items != [] {
      var (score, member) := items[0];
      var next := Put(es, member, score);
      PutUpdates(es, member, score);
      ItemMembersSplit(items);
      PutAllScores(next, items[1..], m);
    }
  }

  /** `PutAllScores` for every member at once. */
  lemma PutAllBindings(es: SortedDict, items: seq<(Score, string)>)
    ensures forall m :: m in ItemMembers(items) ==>
      m in ToMap(PutAll(es, items).0) && ToMap(PutAll(es, items).0)[m] == LastScore(items, m)
    ensures forall m :: m in ToMap(es) && m !in ItemMembers(items) ==>
      m in ToMap(PutAll(es, items).0) && ToMap(PutAll(es, items).0)[m] == ToMap(es)[m]
  {
    forall m | m in ItemMembers(items) || m in ToMap(es)
      ensures m in ToMap(PutAll(es, items).0)
      ensures ToMap(PutAll(es, items).0)[m] == if m in ItemMembers(items) then LastScore(items, m) else ToMap(es)[m]
    {
      PutAllScores(es, items, m);
    }
  }
}
