/** Shared vocabulary: optional values, the element set of a sequence, reversal,
    and one counting fact about sets that the variadic add commands rely on. */
module Common {

  /** Stands for a nullable result (`string?`, `TimeSpan?`, an out-parameter that may be null). */
  datatype Option<+T> = None | Some(value: T)

  /** The set of elements occurring in `s`. */
  function Elems<T>(s: seq<T>): set<T>
  {
    set x | x in s
  }

  lemma ElemsSplit<T>(s: seq<T>)
    requires s != []
    ensures Elems(s) == {s[0]} + Elems(s[1..])
  {
  }

  lemma ElemsAppend<T>(s: seq<T>, x: T)
    ensures Elems(s + [x]) == Elems(s) + {x}
  {
    assert forall y :: y in s + [x] <==> y in s || y == x;
  }

  /** `s` read back to front. */
  function Reverse<T>(s: seq<T>): (r: seq<T>)
    ensures |r| == |s|
    ensures forall i :: 0 <= i < |s| ==> r[i] == s[|s| - 1 - i]
  {
    if s == [] then [] else Reverse(s[1..]) + [s[0]]
  }

  /** Reversal keeps every element with its multiplicity. */
  lemma {:induction false} ReversePermutes<T>(s: seq<T>)
    ensures multiset(Reverse(s)) == multiset(s)
  {
    if s != [] {
      ReversePermutes(s[1..]);
      assert s == [s[0]] + s[1..];
    }
  }

  /** Splitting off one candidate: the new elements of `{x} + rest` relative to `s`
      are `x` (when it is new) together with the new elements of `rest` relative to `s + {x}`. */
  lemma NewElementsStep<T>(s: set<T>, x: T, rest: set<T>)
    ensures |({x} + rest) - s| == (if x in s then 0 else 1) + |rest - (s + {x})|
  {
    if x in s {
      assert ({x} + rest) - s == rest - (s + {x});
    } else {
      assert ({x} + rest) - s == {x} + (rest - (s + {x}));
    }
  }

  /** `ToArray` on a hash set: every element exactly once, in an order the
      set does not fix. */
  method SetToSequence<T>(s: set<T>) returns (arr: seq<T>)
    ensures Elems(arr) == s
    ensures forall i, j :: 0 <= i < j < |arr| ==> arr[i] != arr[j]
    ensures |arr| == |s|
  {
    var rest := s;
    arr := [];
    while rest != {}
      invariant Elems(arr) + rest == s
      invariant Elems(arr) !! rest
      invariant forall i, j :: 0 <= i < j < |arr| ==> arr[i] != arr[j]
      invariant |arr| + |rest| == |s|
      decreases |rest|
    {
      var m :| m in rest;
      ElemsAppend(arr, m);
      arr := arr + [m];
      rest := rest - {m};
    }
  }
}
