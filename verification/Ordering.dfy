/** The order in which strings are sorted, and the sorted enumeration of a set of them. */
module Ordering {
  import opened Prelude

  predicate Leq(a: string, b: string) {
    a == [] || (b != [] && (a[0] < b[0] || (a[0] == b[0] && Leq(a[1..], b[1..]))))
  }

  lemma {:induction false} LeqTotal(a: string, b: string)
    ensures Leq(a, b) || Leq(b, a)
  {
    if a != [] && b != [] { LeqTotal(a[1..], b[1..]); }
  }

  lemma {:induction false} LeqAntisymmetric(a: string, b: string)
    requires Leq(a, b) && Leq(b, a)
    ensures a == b
  {
    if a != [] && b != [] {
      LeqAntisymmetric(a[1..], b[1..]);
      assert a == [a[0]] + a[1..] && b == [b[0]] + b[1..];
    }
  }

  lemma {:induction false} LeqTransitive(a: string, b: string, c: string)
    requires Leq(a, b) && Leq(b, c)
    ensures Leq(a, c)
  {
    if a != [] && a[0] == b[0] && b[0] == c[0] { LeqTransitive(a[1..], b[1..], c[1..]); }
  }

  predicate IsLeast(s: set<string>, m: string) {
    m in s && forall x | x in s :: Leq(m, x)
  }

  lemma {:induction false} LeastExists(s: set<string>)
    requires s != {}
    ensures exists m :: IsLeast(s, m)
    decreases |s|
  {
    var x :| x in s;
    LeqTotal(x, x);
    if s == {x} {
      assert IsLeast(s, x);
    } else {
      var rest := s - {x};
      LeastExists(rest);
      var m :| IsLeast(rest, m);
      LeqTotal(x, m);
      if Leq(m, x) {
        assert IsLeast(s, m);
      } else {
        forall y | y in s ensures Leq(x, y) {
          if y != x { LeqTransitive(x, m, y); }
        }
        assert IsLeast(s, x);
      }
    }
  }

  lemma {:induction false} LeastUnique(s: set<string>, m: string, n: string)
    requires IsLeast(s, m) && IsLeast(s, n)
    ensures m == n
  {
    LeqAntisymmetric(m, n);
  }

  function Least(s: set<string>): (m: string)
    requires s != {}
    ensures IsLeast(s, m)
  {
    LeastExists(s);
    assert forall m, n | IsLeast(s, m) && IsLeast(s, n) :: m == n by {
      forall m, n | IsLeast(s, m) && IsLeast(s, n) ensures m == n { LeastUnique(s, m, n); }
    }
    var m :| m in s && IsLeast(s, m);
    m
  }

  /** `sorted(s)` */
  function Sorted(s: set<string>): seq<string>
    decreases |s|
  {
    if s == {} then [] else [Least(s)] + Sorted(s - {Least(s)})
  }

  ghost predicate Ascending(r: seq<string>) {
    forall i, j | 0 <= i < j < |r| :: Leq(r[i], r[j])
  }

  /** It lists the set, each element once, in order. */
  lemma {:induction false} SortedLists(s: set<string>)
    ensures Elements(Sorted(s)) == s && Distinct(Sorted(s)) && Ascending(Sorted(s))
    decreases |s|
  {
    if s != {} {
      var m := Least(s);
      SortedLists(s - {m});
      Prepend(m, Sorted(s - {m}), s);
      LeastFirst(s, m, Sorted(s - {m}));
    }
  }

  lemma {:induction false} SortedElements(s: set<string>)
    ensures forall x :: x in Sorted(s) <==> x in s
  {
    SortedLists(s);
    assert forall x :: x in Sorted(s) <==> x in Elements(Sorted(s));
  }

  lemma {:induction false} LeastFirst(s: set<string>, m: string, rest: seq<string>)
    requires IsLeast(s, m) && Elements(rest) <= s && Ascending(rest)
    ensures Ascending([m] + rest)
  {
    forall j | 0 <= j < |rest| ensures Leq(m, rest[j]) {
      assert rest[j] in Elements(rest);
    }
  }
}
