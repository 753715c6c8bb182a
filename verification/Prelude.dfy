/** Failure-carrying values shared by every module. */
module Prelude {
  datatype Option<+T> = None | Some(value: T)

  datatype Result<+T, +E> = Success(value: T) | Failure(error: E)

  /** The elements of `s` are pairwise different. */
  predicate Distinct<T(==)>(s: seq<T>) {
    forall i, j | 0 <= i < j < |s| :: s[i] != s[j]
  }

  function Elements<T>(s: seq<T>): set<T> {
    set x | x in s
  }

  /** A sequence without repetition is as long as the set of its elements is large. */
  lemma {:induction false} DistinctSize<T>(s: seq<T>)
    requires Distinct(s)
    ensures |Elements(s)| == |s|
  {
    if s == [] {
      assert Elements(s) == {};
    } else {
      DistinctSize(s[1..]);
      assert Elements(s) == {s[0]} + Elements(s[1..]);
      assert s[0] !in Elements(s[1..]);
    }
  }

  /** Putting a missing element in front of a listing of the others lists them all. */
  lemma {:induction false} Prepend<T>(x: T, rest: seq<T>, s: set<T>)
    requires x in s && Elements(rest) == s - {x} && Distinct(rest)
    ensures Elements([x] + rest) == s && Distinct([x] + rest)
  {
    assert Elements([x] + rest) == {x} + Elements(rest);
    forall j | 0 <= j < |rest| ensures rest[j] != x {
      assert rest[j] in Elements(rest);
    }
  }
}
