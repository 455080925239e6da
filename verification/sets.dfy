/** Facts about finite sets and duplicate-free sequences that the tallies,
    the solo rule and the ranking rest on. */
module Sets {

  /** No element occurs twice. */
  predicate Distinct<T(==)>(s: seq<T>) {
    forall i, j :: 0 <= i < j < |s| ==> s[i] != s[j]
  }

  /** Past its head, `[x] + tail` is `tail` shifted by one. */
  lemma ConsShift<T>(x: T, tail: seq<T>)
    ensures ([x] + tail)[0] == x
    ensures forall i :: 0 < i < |[x] + tail| ==> ([x] + tail)[i] == tail[i - 1]
  {
  }

  /** A sequence without repeats holds each element at most once. */
  lemma {:induction false} DistinctMultiplicity<T>(s: seq<T>, x: T)
    requires Distinct(s)
    ensures multiset(s)[x] <= 1
    decreases |s|
  {
    if s != [] {
      var n := |s| - 1;
      assert s == s[..n] + [s[n]];
      DistinctMultiplicity(s[..n], x);
      if s[n] == x {
        assert x !in s[..n];
      }
    }
  }

  /** A permutation of a sequence without repeats has no repeats. */
  lemma DistinctPermutation<T>(a: seq<T>, b: seq<T>)
    requires multiset(a) == multiset(b) && Distinct(b)
    ensures Distinct(a)
  {
    forall i, j | 0 <= i < j < |a|
      ensures a[i] != a[j]
    {
      if a[i] == a[j] {
        var x := a[i];
        assert a == a[..j] + [a[j]] + a[j + 1..];
        assert x in multiset(a[..j]);
        DistinctMultiplicity(b, x);
      }
    }
  }

  /** A subset is no larger than its superset. */
  lemma {:induction false} SubsetCardinality<T>(a: set<T>, b: set<T>)
    requires a <= b
    ensures |a| <= |b|
    decreases |a|
  {
    if a != {} {
      var x :| x in a;
      SubsetCardinality(a - {x}, b - {x});
    }
  }

  /** A set holding `x` has one element exactly when it is `{x}`. */
  lemma SingletonOf<T>(s: set<T>, x: T)
    requires x in s
    ensures |s| == 1 <==> s == {x}
  {
    if |s| == 1 && s != {x} {
      var y :| y in s && y != x;
      SubsetCardinality({x, y}, s);
    }
  }
}
