/** The start/stop clamping shared by `LRangeAsync`, `ZRangeAsync` and
    `ZRevRangeAsync`: `start` is raised to 0, a negative `stop` means the last
    position, a larger `stop` is lowered to it, and an empty or out-of-range
    window yields nothing. Indices are assumed to fit the C# `int`. */
module Ranges {

  /** Whether position `j` lies inside the requested window, before clamping. */
  predicate Selected(j: int, start: int, stop: int)
  {
    start <= j && (stop < 0 || j <= stop)
  }

  function Max(a: int, b: int): int { if a < b then b else a }
  function Min(a: int, b: int): int { if a < b then a else b }

  /** The clamped window of `s`: positions `max(0, start)` through the clamped end. */
  function Window<T>(s: seq<T>, start: int, stop: int): (r: seq<T>)
    ensures |r| <= |s|
    ensures forall i :: 0 <= i < |r| ==> Max(0, start) + i < |s| && r[i] == s[Max(0, start) + i]
    ensures forall j :: 0 <= j < |s| ==> (Selected(j, start, stop) <==> Max(0, start) <= j < Max(0, start) + |r|)
  {
    var startIndex := Max(0, start);
    var endIndex := if stop < 0 then |s| - 1 else Min(|s| - 1, stop);
    if startIndex <= endIndex && startIndex < |s| then s[startIndex..endIndex + 1] else []
  }

  /** The window (0, -1) is the whole sequence. */
  lemma WholeWindow<T>(s: seq<T>)
    ensures Window(s, 0, -1) == s
  {
  }
}
