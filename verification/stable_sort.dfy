/** The stable sort by score that the range queries apply to a sorted
    dictionary (`OrderBy(x => x.Value)` and `OrderByDescending(x => x.Value)`).

    The input is enumerated in member order, and a stable sort keeps that
    order among equal scores; so the result is ordered by score (ascending or
    descending) and, within one score, by ascending member name. `Sort` is an
    insertion sort that realises exactly this, and `SortedUnique` shows that
    the order determines the result. */
module StableSort {
  import opened Common
  import opened Ordering
  import opened SortedDictionary

  /** `a` comes before `b` in the output of the stable sort. */
  predicate Precedes(a: Entry, b: Entry, descending: bool)
  {
    if a.score == b.score then StrLt(a.member, b.member)
    else if descending then a.score > b.score
    else a.score < b.score
  }

  predicate SortedBy(es: seq<Entry>, descending: bool)
  {
    forall i, j :: 0 <= i < j < |es| ==> Precedes(es[i], es[j], descending)
  }

  lemma PrecedesAsymmetric(a: Entry, b: Entry, descending: bool)
    requires Precedes(a, b, descending)
    ensures !Precedes(b, a, descending) && a != b
  {
    if a.score == b.score {
      StrLtAsymmetric(a.member, b.member);
    }
  }

  /** Whether the sort keeps `e`, which came earlier in its input, ahead of `x`. */
  predicate StaysAhead(e: Entry, x: Entry, descending: bool)
  {
    if descending then e.score >= x.score else e.score <= x.score
  }

  /** Places `e` before the first element it stays ahead of. */
  function Insert(e: Entry, s: seq<Entry>, descending: bool): (r: seq<Entry>)
    ensures multiset(r) == multiset(s) + multiset{e}
    decreases |s|
  {
    if s == [] then [e]
    else if StaysAhead(e, s[0], descending) then [e] + s
    else
      assert s == [s[0]] + s[1..];
      [s[0]] + Insert(e, s[1..], descending)
  }

  /** An element preceding every element of a sorted sequence may go in front of it. */
  lemma ConsSorted(x: Entry, s: seq<Entry>, descending: bool)
    requires SortedBy(s, descending)
    requires forall j :: 0 <= j < |s| ==> Precedes(x, s[j], descending)
    ensures SortedBy([x] + s, descending)
  {
  }

  /** Inserting an entry whose member sorts before every member already
      placed keeps the sequence in the sort's order. */
  lemma {:induction false} InsertSorted(e: Entry, s: seq<Entry>, descending: bool)
    requires SortedBy(s, descending)
    requires forall x :: x in s ==> StrLt(e.member, x.member)
    ensures SortedBy(Insert(e, s, descending), descending)
    decreases |s|
  {
    if s == [] {
    } else if StaysAhead(e, s[0], descending) {
      forall j | 0 <= j < |s|
        ensures Precedes(e, s[j], descending)
      {
        assert s[j] in s;
        if j > 0 {
          assert Precedes(s[0], s[j], descending);
        }
      }
      ConsSorted(e, s, descending);
    } else {
      var tail := s[1..];
      assert forall x :: x in tail ==> x in s;
      assert SortedBy(tail, descending) by {
        forall i, j | 0 <= i < j < |tail|
          ensures Precedes(tail[i], tail[j], descending)
        {
          assert tail[i] == s[i + 1] && tail[j] == s[j + 1];
        }
      }
      InsertSorted(e, tail, descending);
      var rest := Insert(e, tail, descending);
      forall j | 0 <= j < |rest|
        ensures Precedes(s[0], rest[j], descending)
      {
        assert rest[j] in multiset(rest);
        if rest[j] != e {
          assert rest[j] in multiset(tail);
          var k :| 0 <= k < |tail| && tail[k] == rest[j];
          assert s[k + 1] == rest[j];
        }
      }
      ConsSorted(s[0], rest, descending);
    }
  }

  /** The first entry of a sorted dictionary has a smaller member than any
      entry of a rearrangement of the rest. */
  lemma FirstBelowRest(es: SortedDict, rest: seq<Entry>)
    requires es != [] && multiset(rest) == multiset(es[1..])
    ensures forall x :: x in rest ==> StrLt(es[0].member, x.member)
  {
    forall x | x in rest
      ensures StrLt(es[0].member, x.member)
    {
      assert x in multiset(es[1..]);
      var k :| 0 <= k < |es[1..]| && es[1..][k] == x;
      assert es[k + 1] == x;
    }
  }

  /** The stable sort of a sorted dictionary's entries by score. */
  function Sort(es: SortedDict, descending: bool): (r: seq<Entry>)
    ensures multiset(r) == multiset(es)
    ensures SortedBy(r, descending)
    decreases |es|
  {
    if es == [] then []
    else
      var rest := Sort(es[1..], descending);
      FirstBelowRest(es, rest);
      assert es == [es[0]] + es[1..];
      InsertSorted(es[0], rest, descending);
      Insert(es[0], rest, descending)
  }

  lemma TailSorted(s: seq<Entry>, descending: bool)
    requires s != [] && SortedBy(s, descending)
    ensures SortedBy(s[1..], descending)
  {
  }

  /** Of two sorted sequences with the same entries, neither can start with
      an entry the other places later. */
  lemma HeadsEqual(a: seq<Entry>, b: seq<Entry>, descending: bool)
    requires SortedBy(a, descending) && SortedBy(b, descending)
    requires multiset(a) == multiset(b) && a != []
    ensures b != [] && a[0] == b[0]
  {
    assert a[0] in multiset(b);
    assert b != [];
    assert b[0] in multiset(a);
    var k :| 0 <= k < |b| && b[k] == a[0];
    var j :| 0 <= j < |a| && a[j] == b[0];
    if k > 0 {
      assert Precedes(b[0], a[0], descending);
      if j > 0 {
        assert Precedes(a[0], b[0], descending);
      }
      PrecedesAsymmetric(b[0], a[0], descending);
    }
  }

  /** Two sequences holding the same entries, both in the sort's order, are equal. */
  lemma {:induction false} SortedUnique(a: seq<Entry>, b: seq<Entry>, descending: bool)
    requires SortedBy(a, descending) && SortedBy(b, descending)
    requires multiset(a) == multiset(b)
    ensures a == b
    decreases |a|
  {
    if a == [] {
      assert |b| == |multiset(b)| == 0;
    } else {
      HeadsEqual(a, b, descending);
      assert a == [a[0]] + a[1..] && b == [b[0]] + b[1..];
      assert multiset(a) == multiset{a[0]} + multiset(a[1..]);
      assert multiset(b) == multiset{b[0]} + multiset(b[1..]);
      assert multiset(a[1..]) == multiset(a) - multiset{a[0]};
      assert multiset(b[1..]) == multiset(b) - multiset{b[0]};
      TailSorted(a, descending);
      TailSorted(b, descending);
      SortedUnique(a[1..], b[1..], descending);
    }
  }

  /** With pairwise distinct scores, member order never decides, so the
      descending sort is the ascending one read backwards. */
  lemma DistinctScoresReverse(es: SortedDict)
    requires forall i, j :: 0 <= i < j < |es| ==> es[i].score != es[j].score
    ensures Sort(es, true) == Reverse(Sort(es, false))
  {
    var up := Sort(es, false);
    ReverseDescends(es, up);
    ReversePermutes(up);
    SortedUnique(Sort(es, true), Reverse(up), true);
  }

  lemma ReverseDescends(es: SortedDict, up: seq<Entry>)
    requires forall i, j :: 0 <= i < j < |es| ==> es[i].score != es[j].score
    requires SortedBy(up, false) && multiset(up) == multiset(es)
    ensures SortedBy(Reverse(up), true)
  {
    var r := Reverse(up);
    forall i, j | 0 <= i < j < |r|
      ensures Precedes(r[i], r[j], true)
    {
      FlippedPair(es, up, |up| - 1 - j, |up| - 1 - i);
    }
  }

  /** One pair of the ascending sort, read backwards, is in descending order. */
  lemma FlippedPair(es: SortedDict, up: seq<Entry>, p: int, q: int)
    requires forall i, j :: 0 <= i < j < |es| ==> es[i].score != es[j].score
    requires SortedBy(up, false) && multiset(up) == multiset(es)
    requires 0 <= p < q < |up|
    ensures Precedes(up[q], up[p], true)
  {
    assert Precedes(up[p], up[q], false);
    PrecedesAsymmetric(up[p], up[q], false);
    assert up[p] in multiset(es) && up[q] in multiset(es);
    var k :| 0 <= k < |es| && es[k] == up[p];
    var l :| 0 <= l < |es| && es[l] == up[q];
    assert k != l;
    assert up[p].score != up[q].score;
  }
}
