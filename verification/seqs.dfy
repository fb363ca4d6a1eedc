/** Order-preserving selection over sequences, stated once for any element
    type so that proofs about it never look inside the selector or the
    mapping. */
module Seqs {

  /** `[f(x) for x in xs if keep(x)]`. */
  function FilterMap<T, U>(xs: seq<T>, keep: T -> bool, f: T -> U): (ys: seq<U>)
    ensures |ys| <= |xs|
    decreases |xs|
  {
    if |xs| == 0 then []
    else (if keep(xs[0]) then [f(xs[0])] else []) + FilterMap(xs[1..], keep, f)
  }

  lemma {:induction false} FilterMapAppend<T, U>(xs: seq<T>, x: T, keep: T -> bool, f: T -> U)
    ensures FilterMap(xs + [x], keep, f) == FilterMap(xs, keep, f) + (if keep(x) then [f(x)] else [])
    decreases |xs|
  {
    if |xs| == 0 {
      assert xs + [x] == [x];
    } else {
      var head: seq<U> := if keep(xs[0]) then [f(xs[0])] else [];
      var tail: seq<U> := if keep(x) then [f(x)] else [];
      assert (xs + [x])[0] == xs[0];
      assert (xs + [x])[1..] == xs[1..] + [x];
      FilterMapAppend(xs[1..], x, keep, f);
      calc {
        FilterMap(xs + [x], keep, f);
        head + FilterMap(xs[1..] + [x], keep, f);
        head + (FilterMap(xs[1..], keep, f) + tail);
        (head + FilterMap(xs[1..], keep, f)) + tail;
        FilterMap(xs, keep, f) + tail;
      }
    }
  }

  /** Selectors and mappings that agree on every element select and map
      alike. */
  lemma {:induction false} FilterMapCongruence<T, U>(xs: seq<T>, k1: T -> bool, k2: T -> bool, f1: T -> U, f2: T -> U)
    requires forall x :: k1(x) == k2(x) && f1(x) == f2(x)
    ensures FilterMap(xs, k1, f1) == FilterMap(xs, k2, f2)
    decreases |xs|
  {
    if |xs| > 0 {
      FilterMapCongruence(xs[1..], k1, k2, f1, f2);
    }
  }

  /** Every selected image is the image of a kept element. */
  lemma {:induction false} FilterMapElements<T, U>(xs: seq<T>, keep: T -> bool, f: T -> U, j: nat) returns (i: nat)
    requires j < |FilterMap(xs, keep, f)|
    ensures i < |xs| && keep(xs[i]) && FilterMap(xs, keep, f)[j] == f(xs[i])
    decreases |xs|
  {
    var head: seq<U> := if keep(xs[0]) then [f(xs[0])] else [];
    if j < |head| {
      i := 0;
    } else {
      var i' := FilterMapElements(xs[1..], keep, f, j - |head|);
      i := i' + 1;
    }
  }

  /** Each element satisfies exactly one of three selectors, so the three
      selections together are as long as the whole. */
  lemma {:induction false} FilterMapPartition<T, U>(xs: seq<T>, k1: T -> bool, k2: T -> bool, k3: T -> bool, f: T -> U)
    requires forall x :: (k1(x) || k2(x) || k3(x)) && !(k1(x) && k2(x)) && !(k1(x) && k3(x)) && !(k2(x) && k3(x))
    ensures |FilterMap(xs, k1, f)| + |FilterMap(xs, k2, f)| + |FilterMap(xs, k3, f)| == |xs|
    decreases |xs|
  {
    if |xs| > 0 {
      FilterMapPartition(xs[1..], k1, k2, k3, f);
    }
  }

  /** `[y for x in xs for y in f(x)]`. */
  function FlatMap<T, U>(xs: seq<T>, f: T -> seq<U>): seq<U>
    decreases |xs|
  {
    if |xs| == 0 then [] else f(xs[0]) + FlatMap(xs[1..], f)
  }

  lemma FlatMapThree<T, U>(xs: seq<T>, f: T -> seq<U>)
    requires |xs| == 3
    ensures FlatMap(xs, f) == f(xs[0]) + f(xs[1]) + f(xs[2])
  {
    var t1 := xs[1..];
    var t2 := t1[1..];
    assert t1[0] == xs[1] && t2[0] == xs[2] && |t2[1..]| == 0;
    assert FlatMap(t2, f) == f(xs[2]);
    assert FlatMap(t1, f) == f(xs[1]) + f(xs[2]);
  }

  lemma FlatMapFour<T, U>(xs: seq<T>, f: T -> seq<U>)
    requires |xs| == 4
    ensures FlatMap(xs, f) == f(xs[0]) + f(xs[1]) + f(xs[2]) + f(xs[3])
  {
    FlatMapThree(xs[1..], f);
    assert xs[1..][0] == xs[1] && xs[1..][1] == xs[2] && xs[1..][2] == xs[3];
  }

  /** A property of every piece holds of every element of the whole. */
  lemma {:induction false} FlatMapAll<T, U>(xs: seq<T>, f: T -> seq<U>, p: U -> bool)
    requires forall i, j :: 0 <= i < |xs| && 0 <= j < |f(xs[i])| ==> p(f(xs[i])[j])
    ensures forall j :: 0 <= j < |FlatMap(xs, f)| ==> p(FlatMap(xs, f)[j])
    decreases |xs|
  {
    if |xs| > 0 {
      assert forall i :: 0 <= i < |xs| - 1 ==> xs[1..][i] == xs[i + 1];
      FlatMapAll(xs[1..], f, p);
    }
  }

  /** Index of the first `x` in `s`, or `|s|` when there is none. */
  function Position<T(==)>(s: seq<T>, x: T): (p: nat)
    ensures p <= |s|
    ensures p < |s| ==> s[p] == x
    ensures forall j :: 0 <= j < p ==> s[j] != x
    decreases |s|
  {
    if |s| == 0 then 0 else if s[0] == x then 0 else 1 + Position(s[1..], x)
  }

  lemma PositionAppend<T>(s: seq<T>, y: T, x: T)
    requires x in s + [y]
    ensures Position(s + [y], x) == if x in s then Position(s, x) else |s|
  {
    var p := Position(s + [y], x);
    if x in s {
      var q := Position(s, x);
      assert (s + [y])[q] == x;
    } else {
      assert (s + [y])[|s|] == x;
    }
  }

  /** The first `x` of `pre + post` is where `post` starts, when `pre` has
      no `x` and `post` starts with one. */
  lemma PositionAfterPrefix<T>(pre: seq<T>, post: seq<T>, x: T)
    requires x !in pre && |post| > 0 && post[0] == x
    ensures Position(pre + post, x) == |pre|
  {
    var s := pre + post;
    assert s[|pre|] == x;
    assert forall k :: 0 <= k < |pre| ==> s[k] == pre[k];
  }
}
