/** Python dictionaries as the script uses them: insertion-ordered, one
    entry per key, `d[k] = v` replacing a present key in place and appending
    a new one at the end. */
module Dicts {
  import opened Wrappers
  import opened Text
  import opened Seqs

  type Dict<K, V> = seq<(K, V)>

  function Keys<K, V>(d: Dict<K, V>): (ks: seq<K>)
    ensures |ks| == |d|
    ensures forall i :: 0 <= i < |d| ==> ks[i] == d[i].0
  {
    seq(|d|, i requires 0 <= i < |d| => d[i].0)
  }

  predicate DistinctKeys<K(==), V>(d: Dict<K, V>) {
    forall i, j :: 0 <= i < j < |d| ==> d[i].0 != d[j].0
  }

  /** `d.get(k)`. */
  function Get<K(==), V>(d: Dict<K, V>, k: K): (r: Option<V>)
    ensures r.None? <==> k !in Keys(d)
    decreases |d|
  {
    if |d| == 0 then None
    else if d[0].0 == k then Some(d[0].1)
    else
      assert Keys(d) == [d[0].0] + Keys(d[1..]);
      Get(d[1..], k)
  }

  /** With distinct keys, every entry is what a lookup of its key finds. */
  lemma {:induction false} GetEntry<K, V>(d: Dict<K, V>, i: nat)
    requires DistinctKeys(d) && i < |d|
    ensures Get(d, d[i].0) == Some(d[i].1)
    decreases i
  {
    if i > 0 {
      GetEntry(d[1..], i - 1);
    }
  }

  lemma KeysCons<K, V>(x: (K, V), d: Dict<K, V>)
    ensures Keys([x] + d) == [x.0] + Keys(d)
  {
    assert forall i :: 0 < i < |d| + 1 ==> ([x] + d)[i] == d[i - 1];
  }

  /** `d[k] = v`: a present key keeps its place, a new one goes last. */
  function Put<K(==, !new), V>(d: Dict<K, V>, k: K, v: V): (r: Dict<K, V>)
    ensures Keys(r) == if k in Keys(d) then Keys(d) else Keys(d) + [k]
    decreases |d|
  {
    if |d| == 0 then [(k, v)]
    else
      assert d == [d[0]] + d[1..];
      KeysCons(d[0], d[1..]);
      if d[0].0 == k then
        KeysCons((k, v), d[1..]);
        [(k, v)] + d[1..]
      else
        var rest := Put(d[1..], k, v);
        KeysCons(d[0], rest);
        [d[0]] + rest
  }

  /** After `d[k] = v`, `k` finds `v` and every other key finds what it
      found before. */
  lemma {:induction false} PutGet<K(!new), V>(d: Dict<K, V>, k: K, v: V)
    ensures Get(Put(d, k, v), k) == Some(v)
    ensures forall k' :: k' != k ==> Get(Put(d, k, v), k') == Get(d, k')
    decreases |d|
  {
    if |d| > 0 && d[0].0 != k {
      PutGet(d[1..], k, v);
      var r := Put(d, k, v);
      assert r[0] == d[0] && r[1..] == Put(d[1..], k, v);
    } else if |d| > 0 {
      assert Put(d, k, v)[1..] == d[1..];
    }
  }

  lemma PutKeepsKeysDistinct<K(!new), V>(d: Dict<K, V>, k: K, v: V)
    requires DistinctKeys(d)
    ensures DistinctKeys(Put(d, k, v))
  {
    var r := Put(d, k, v);
    assert forall i :: 0 <= i < |r| ==> r[i].0 == Keys(r)[i];
  }

  /** `d[k]` for a dictionary of lists, empty when `k` is absent. */
  function ListAt<K(==), V>(d: Dict<K, seq<V>>, k: K): seq<V> {
    match Get(d, k)
    case Some(v) => v
    case None => []
  }

  /** Selects the elements whose key is `k`. */
  function HasKey<T, K(==)>(key: T -> K, k: K): T -> bool {
    (x: T) => key(x) == k
  }

  /** `for x in xs: d[key(x)].append(f(x))`. */
  function GroupInto<T, K(==, !new), V>(d: Dict<K, seq<V>>, xs: seq<T>, key: T -> K, f: T -> V): Dict<K, seq<V>>
    decreases |xs|
  {
    if |xs| == 0 then d
    else
      var r := GroupInto(d, xs[..|xs| - 1], key, f);
      var k := key(xs[|xs| - 1]);
      Put(r, k, ListAt(r, k) + [f(xs[|xs| - 1])])
  }

  /** Appending `y` to the list at `k0` leaves every other list alone. */
  lemma AppendAt<K(!new), V>(r: Dict<K, seq<V>>, k0: K, y: V, k: K)
    ensures ListAt(Put(r, k0, ListAt(r, k0) + [y]), k) == ListAt(r, k) + (if k0 == k then [y] else [])
  {
    PutGet(r, k0, ListAt(r, k0) + [y]);
  }

  /** One more element grouped: the list at `k` grows by its image exactly
      when its key is `k`. */
  lemma GroupStepAt<T, K(!new), V>(r: Dict<K, seq<V>>, base: seq<V>, prefix: seq<T>, x: T, key: T -> K, f: T -> V, k: K)
    requires ListAt(r, k) == base + FilterMap(prefix, HasKey(key, k), f)
    ensures ListAt(Put(r, key(x), ListAt(r, key(x)) + [f(x)]), k) == base + FilterMap(prefix + [x], HasKey(key, k), f)
  {
    AppendAt(r, key(x), f(x), k);
    FilterMapAppend(prefix, x, HasKey(key, k), f);
    assert HasKey(key, k)(x) == (key(x) == k);
  }

  /** When every element's key is already present, grouping adds no key,
      and each list grows by the images of exactly the elements with its
      key, in order. */
  lemma {:induction false} GroupIntoLists<T, K(!new), V>(d: Dict<K, seq<V>>, xs: seq<T>, key: T -> K, f: T -> V)
    requires forall x :: key(x) in Keys(d)
    ensures Keys(GroupInto(d, xs, key, f)) == Keys(d)
    ensures forall k :: k in Keys(d) ==>
              ListAt(GroupInto(d, xs, key, f), k) == ListAt(d, k) + FilterMap(xs, HasKey(key, k), f)
    decreases |xs|
  {
    if |xs| > 0 {
      var prefix := xs[..|xs| - 1];
      var x := xs[|xs| - 1];
      assert xs == prefix + [x];
      GroupIntoLists(d, prefix, key, f);
      var r := GroupInto(d, prefix, key, f);
      assert GroupInto(d, xs, key, f) == Put(r, key(x), ListAt(r, key(x)) + [f(x)]);
      forall k | k in Keys(d)
        ensures ListAt(GroupInto(d, xs, key, f), k) == ListAt(d, k) + FilterMap(xs, HasKey(key, k), f)
      {
        GroupStepAt(r, ListAt(d, k), prefix, x, key, f, k);
      }
    } else {
      forall k | k in Keys(d)
        ensures ListAt(d, k) + FilterMap(xs, HasKey(key, k), f) == ListAt(d, k)
      {
      }
    }
  }
}
