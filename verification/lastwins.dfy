/** Last-write-wins folds. Every reader of the quiz log scans the rows in order
    and lets a later matching row overwrite what an earlier one set; the two
    shapes of that scan are defined once here: a single value (`LastOf`) and a
    keyed map (`Overlay`). Both peel the LAST element, which is the forward
    fold of the source read from its end. */
module LastWins {
  import opened Wrappers

  /** Index `i` is the last element of `xs` that `f` selects. */
  ghost predicate IsLast<A, T>(xs: seq<A>, f: A -> Option<T>, i: int) {
    0 <= i < |xs| && f(xs[i]).Some? && forall j :: i < j < |xs| ==> f(xs[j]).None?
  }

  /** What the last element selected by `f` carries, if any element is selected. */
  function LastOf<A, T>(xs: seq<A>, f: A -> Option<T>): (r: Option<T>)
    ensures r.None? <==> forall i :: 0 <= i < |xs| ==> f(xs[i]).None?
    ensures r.Some? ==> exists i :: IsLast(xs, f, i)
    ensures forall i :: IsLast(xs, f, i) ==> r == f(xs[i])
    decreases |xs|
  {
    if xs == [] then None
    else if f(xs[|xs| - 1]).Some? then
      assert IsLast(xs, f, |xs| - 1);
      f(xs[|xs| - 1])
    else
      var r := LastOf(xs[..|xs| - 1], f);
      LastOfDropUnselected(xs, xs[..|xs| - 1], f);
      r
  }

  /** Dropping a final element that `f` does not select keeps the last
      selected element where it was. */
  lemma LastOfDropUnselected<A, T>(xs: seq<A>, pre: seq<A>, f: A -> Option<T>)
    requires xs != [] && pre == xs[..|xs| - 1] && f(xs[|xs| - 1]).None?
    ensures forall i :: IsLast(xs, f, i) <==> IsLast(pre, f, i)
    ensures (exists i :: IsLast(pre, f, i)) ==> exists i :: IsLast(xs, f, i)
  {
    if i :| IsLast(pre, f, i) {
      assert IsLast(xs, f, i);
    }
  }

  /** Reading a log that grew by `ys` sees the last selected row of `ys`, and
      falls back to the old log only when `ys` selects nothing. */
  lemma {:induction false} LastOfAppend<A, T>(xs: seq<A>, ys: seq<A>, f: A -> Option<T>)
    ensures LastOf(xs + ys, f) == if LastOf(ys, f).Some? then LastOf(ys, f) else LastOf(xs, f)
    decreases |ys|
  {
    if ys != [] {
      var n := |ys| - 1;
      assert (xs + ys)[..|xs + ys| - 1] == xs + ys[..n];
      LastOfAppend(xs, ys[..n], f);
    } else {
      assert xs + ys == xs;
    }
  }

  /** Element `i` writes the key `k`. */
  ghost predicate Writes<A, K, V>(xs: seq<A>, f: A -> Option<(K, V)>, i: int, k: K) {
    0 <= i < |xs| && f(xs[i]).Some? && f(xs[i]).value.0 == k
  }

  /** Element `i` is the last one writing the key `k`. */
  ghost predicate LastWrite<A, K, V>(xs: seq<A>, f: A -> Option<(K, V)>, i: int, k: K) {
    Writes(xs, f, i, k) && forall j :: i < j < |xs| ==> !Writes(xs, f, j, k)
  }

  /** `m` updated by every key/value pair `f` selects from `xs`, in order. */
  function Overlay<A, K(!new), V>(m: map<K, V>, xs: seq<A>, f: A -> Option<(K, V)>): (r: map<K, V>)
    ensures forall k :: k in r <==> k in m || exists i :: Writes(xs, f, i, k)
    ensures forall i, k :: LastWrite(xs, f, i, k) ==> k in r && r[k] == f(xs[i]).value.1
    ensures forall k :: k in m && (forall i :: !Writes(xs, f, i, k)) ==> r[k] == m[k]
    ensures (forall i :: 0 <= i < |xs| ==> f(xs[i]).None?) ==> r == m
    decreases |xs|
  {
    if xs == [] then m
    else
      var n := |xs| - 1;
      var r := Overlay(m, xs[..n], f);
      OverlayStep(m, xs, f, r);
      if f(xs[n]).None? then r else r[f(xs[n]).value.0 := f(xs[n]).value.1]
  }

  /** The four ensures of `Overlay`, for result `r`. */
  ghost predicate Overlaid<A, K(!new), V>(m: map<K, V>, xs: seq<A>, f: A -> Option<(K, V)>, r: map<K, V>) {
    && (forall k :: k in r <==> k in m || exists i :: Writes(xs, f, i, k))
    && (forall i, k :: LastWrite(xs, f, i, k) ==> k in r && r[k] == f(xs[i]).value.1)
    && (forall k :: k in m && (forall i :: !Writes(xs, f, i, k)) ==> r[k] == m[k])
    && ((forall i :: 0 <= i < |xs| ==> f(xs[i]).None?) ==> r == m)
  }

  /** The step of `Overlay`: what holds of the overlay of all elements but
      the last carries over once the last element's write, if any, is put. */
  lemma OverlayStep<A, K(!new), V>(m: map<K, V>, xs: seq<A>, f: A -> Option<(K, V)>, r: map<K, V>)
    requires xs != []
    requires Overlaid(m, xs[..|xs| - 1], f, r)
    ensures var n := |xs| - 1;
            Overlaid(m, xs, f, if f(xs[n]).None? then r else r[f(xs[n]).value.0 := f(xs[n]).value.1])
  {
    var n := |xs| - 1;
    assert forall i, k :: Writes(xs[..n], f, i, k) <==> i < n && Writes(xs, f, i, k);
    if f(xs[n]).Some? {
      var kv := f(xs[n]).value;
      assert Writes(xs, f, n, kv.0);
      assert forall i :: LastWrite(xs, f, i, kv.0) ==> i == n;
    }
  }

  /** One step of the search: the last element's value, if any, else the
      last value among the elements before it. */
  lemma LastOfLast<A, T>(xs: seq<A>, f: A -> Option<T>)
    requires xs != []
    ensures LastOf(xs, f) == if f(xs[|xs| - 1]).Some? then f(xs[|xs| - 1]) else LastOf(xs[..|xs| - 1], f)
  {
  }

  /** One step of the fold: the last element's write, if any, lands on top
      of the overlay of the elements before it. */
  lemma OverlayLast<A, K(!new), V>(m: map<K, V>, xs: seq<A>, f: A -> Option<(K, V)>)
    requires xs != []
    ensures var r := Overlay(m, xs[..|xs| - 1], f);
            var w := f(xs[|xs| - 1]);
            Overlay(m, xs, f) == if w.None? then r else r[w.value.0 := w.value.1]
  {
  }

  /** Overlaying a grown sequence is overlaying the old part, then the new part. */
  lemma {:induction false} OverlayAppend<A, K(!new), V>(m: map<K, V>, xs: seq<A>, ys: seq<A>, f: A -> Option<(K, V)>)
    ensures Overlay(m, xs + ys, f) == Overlay(Overlay(m, xs, f), ys, f)
    decreases |ys|
  {
    if ys != [] {
      var n := |ys| - 1;
      assert (xs + ys)[..|xs + ys| - 1] == xs + ys[..n];
      OverlayAppend(m, xs, ys[..n], f);
    } else {
      assert xs + ys == xs;
    }
  }
}
