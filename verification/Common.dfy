/** The result types and the few facts about sequences that the other modules share. */
module Common {

  datatype Option<+T> = None | Some(value: T)

  datatype Result<+T, +E> = Success(value: T) | Failure(error: E)

  function Max(a: int, b: int): int {
    if a < b then b else a
  }

  function Min(a: int, b: int): int {
    if a < b then a else b
  }

  ghost predicate Distinct<T>(s: seq<T>) {
    forall i, j :: 0 <= i < j < |s| ==> s[i] != s[j]
  }

  /** A sequence never holds more different elements than it has places. */
  lemma {:induction false} AtMostLength<T>(s: seq<T>)
    ensures |set x | x in s| <= |s|
  {
    if s != [] {
      var last := |s| - 1;
      AtMostLength(s[..last]);
      assert (set x | x in s) == (set x | x in s[..last]) + {s[last]};
    }
  }
}
