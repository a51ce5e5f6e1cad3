/** Lookups and filters over a list of records by a key (`find`, `Map.get`, `filter`). */
module Keyed {
  import opened Wrappers
  import opened Seqs

  /** Some record has key `k` (`xs.some(x => key(x) === k)`). */
  predicate HasKey<T, K(==)>(xs: seq<T>, key: T -> K, k: K) {
    exists i :: 0 <= i < |xs| && key(xs[i]) == k
  }

  /** Index of the first record with key `k` (`findIndex`). */
  function FirstIndex<T, K(==)>(xs: seq<T>, key: T -> K, k: K): (r: Option<nat>)
    ensures r.Some? ==> r.value < |xs| && key(xs[r.value]) == k
    ensures r.Some? ==> forall j :: 0 <= j < r.value ==> key(xs[j]) != k
    ensures r.None? ==> forall j :: 0 <= j < |xs| ==> key(xs[j]) != k
  {
    if xs == [] then None
    else if key(xs[0]) == k then Some(0)
    else
      match FirstIndex(xs[1..], key, k)
      case None => None
      case Some(i) => Some(i + 1)
  }

  /** `xs.find(x => key(x) === k)` */
  function FirstByKey<T, K(==)>(xs: seq<T>, key: T -> K, k: K): Option<T> {
    match FirstIndex(xs, key, k)
    case None => None
    case Some(i) => Some(xs[i])
  }

  /** Index of the last record with key `k`. */
  function LastIndex<T, K(==)>(xs: seq<T>, key: T -> K, k: K): (r: Option<nat>)
    ensures r.Some? ==> r.value < |xs| && key(xs[r.value]) == k
    ensures r.Some? ==> forall j :: r.value < j < |xs| ==> key(xs[j]) != k
    ensures r.None? ==> forall j :: 0 <= j < |xs| ==> key(xs[j]) != k
  {
    if xs == [] then None
    else if key(xs[|xs| - 1]) == k then Some(|xs| - 1)
    else LastIndex(xs[..|xs| - 1], key, k)
  }

  /** `new Map(xs.map(x => [key(x), x])).get(k)`: a later record overwrites an earlier one. */
  function LastByKey<T, K(==)>(xs: seq<T>, key: T -> K, k: K): Option<T> {
    match LastIndex(xs, key, k)
    case None => None
    case Some(i) => Some(xs[i])
  }

  /** `xs.filter(x => key(x) !== k)` */
  function RemoveByKey<T(==,!new), K(==)>(xs: seq<T>, key: T -> K, k: K): (r: seq<T>)
    ensures forall x :: x in r <==> x in xs && key(x) != k
    ensures forall i :: 0 <= i < |r| ==> key(r[i]) != k
    ensures |r| <= |xs|
  {
    if xs == [] then []
    else
      assert xs == [xs[0]] + xs[1..];
      (if key(xs[0]) == k then [] else [xs[0]]) + RemoveByKey(xs[1..], key, k)
  }

  /** Removing a key no record has changes nothing. */
  lemma {:induction false} RemoveAbsentKey<T(!new), K>(xs: seq<T>, key: T -> K, k: K)
    requires forall i :: 0 <= i < |xs| ==> key(xs[i]) != k
    ensures RemoveByKey(xs, key, k) == xs
  {
    if xs != [] {
      RemoveAbsentKey(xs[1..], key, k);
    }
  }

  /** Filtering keeps every copy of a record with another key, and drops all with key `k`. */
  lemma {:induction false} RemoveByKeyCount<T(!new), K>(xs: seq<T>, key: T -> K, k: K, x: T)
    ensures multiset(RemoveByKey(xs, key, k))[x] == if key(x) == k then 0 else multiset(xs)[x]
  {
    if xs != [] {
      assert xs == [xs[0]] + xs[1..];
      RemoveByKeyCount(xs[1..], key, k, x);
    }
  }

  /** Filtering distributes over concatenation. */
  lemma {:induction false} RemoveByKeyAppend<T(!new), K>(xs: seq<T>, ys: seq<T>, key: T -> K, k: K)
    ensures RemoveByKey(xs + ys, key, k) == RemoveByKey(xs, key, k) + RemoveByKey(ys, key, k)
  {
    if xs != [] {
      var h := if key(xs[0]) == k then [] else [xs[0]];
      var zs := xs + ys;
      assert zs != [] && zs[0] == xs[0] && zs[1..] == xs[1..] + ys;
      assert RemoveByKey(zs, key, k) == h + RemoveByKey(xs[1..] + ys, key, k);
      assert RemoveByKey(xs, key, k) == h + RemoveByKey(xs[1..], key, k);
      RemoveByKeyAppend(xs[1..], ys, key, k);
      assert h + (RemoveByKey(xs[1..], key, k) + RemoveByKey(ys, key, k))
          == (h + RemoveByKey(xs[1..], key, k)) + RemoveByKey(ys, key, k);
    } else {
      assert xs + ys == ys;
    }
  }

  /** `xs.filter(x => key(x) === k).length` */
  function CountKey<T, K(==)>(xs: seq<T>, key: T -> K, k: K): (n: nat)
    ensures n <= |xs|
  {
    if xs == [] then 0 else (if key(xs[0]) == k then 1 else 0) + CountKey(xs[1..], key, k)
  }

  /** No two records share a key. */
  predicate DistinctKeys<T, K(==)>(xs: seq<T>, key: T -> K) {
    forall i, j :: 0 <= i < j < |xs| ==> key(xs[i]) != key(xs[j])
  }

  /** With distinct keys, a key identifies its record. */
  lemma {:induction false} DistinctKeysIdentify<T(!new), K>(xs: seq<T>, key: T -> K, x: T, y: T)
    requires DistinctKeys(xs, key) && x in xs && y in xs && key(x) == key(y)
    ensures x == y
  {
    var i :| 0 <= i < |xs| && xs[i] == x;
    var j :| 0 <= j < |xs| && xs[j] == y;
  }

  /** A filter of a list with distinct keys has distinct keys. */
  lemma {:induction false} FilterDistinctKeys<T(!new), K>(xs: seq<T>, p: T -> bool, key: T -> K)
    requires DistinctKeys(xs, key)
    ensures DistinctKeys(Filter(xs, p), key)
  {
    if xs != [] {
      var t := xs[1..];
      FilterDistinctKeys(t, p, key);
      var ft := Filter(t, p);
      forall j | 0 <= j < |ft| ensures key(xs[0]) != key(ft[j]) {
        assert ft[j] in t;
        var m :| 0 <= m < |t| && t[m] == ft[j];
        assert xs[m + 1] == ft[j];
      }
    }
  }

  /** `map.set(key(x), x)` on a `Map` viewed as its entries in insertion order: an existing
      key keeps its position and takes the new value; a new key goes last. */
  function MapSet<T, K(==)>(entries: seq<T>, key: T -> K, x: T): (r: seq<T>) {
    match FirstIndex(entries, key, key(x))
    case Some(i) => entries[i := x]
    case None => entries + [x]
  }

  /** `xs.forEach(x => map.set(key(x), x))` on an empty map, then `Array.from(map.values())`. */
  function MapValues<T, K(==)>(xs: seq<T>, key: T -> K): seq<T> {
    if xs == [] then [] else MapSet(MapValues(xs[..|xs| - 1], key), key, xs[|xs| - 1])
  }

  /** Every value comes from the input, keys are distinct, and exactly the input's keys occur. */
  lemma {:induction false} MapValuesKeys<T(!new), K>(xs: seq<T>, key: T -> K)
    ensures DistinctKeys(MapValues(xs, key), key)
    ensures forall x :: x in MapValues(xs, key) ==> x in xs
    ensures forall k :: HasKey(MapValues(xs, key), key, k) <==> HasKey(xs, key, k)
  {
    if xs != [] {
      var init := xs[..|xs| - 1];
      var y := xs[|xs| - 1];
      MapValuesKeys(init, key);
      var m := MapValues(init, key);
      var r := MapValues(xs, key);
      assert forall x :: x in init ==> x in xs;
      forall k ensures HasKey(xs, key, k) <==> HasKey(init, key, k) || k == key(y) {
        if HasKey(xs, key, k) && k != key(y) {
          var i :| 0 <= i < |xs| && key(xs[i]) == k;
          assert key(init[i]) == k;
        }
        if HasKey(init, key, k) {
          var i :| 0 <= i < |init| && key(init[i]) == k;
          assert key(xs[i]) == k;
        }
        if k == key(y) {
          assert key(xs[|xs| - 1]) == k;
        }
      }
      match FirstIndex(m, key, key(y))
      case Some(i) =>
        forall k ensures HasKey(r, key, k) <==> HasKey(m, key, k) {
          if HasKey(r, key, k) {
            var j :| 0 <= j < |r| && key(r[j]) == k;
            assert key(m[j]) == k;
          }
          if HasKey(m, key, k) {
            var j :| 0 <= j < |m| && key(m[j]) == k;
            assert key(r[j]) == k;
          }
        }
        assert HasKey(m, key, key(y)) by {
          assert key(m[i]) == key(y);
        }
      case None =>
        forall k ensures HasKey(r, key, k) <==> HasKey(m, key, k) || k == key(y) {
          if HasKey(r, key, k) && k != key(y) {
            var j :| 0 <= j < |r| && key(r[j]) == k;
            assert key(m[j]) == k;
          }
          if HasKey(m, key, k) {
            var j :| 0 <= j < |m| && key(m[j]) == k;
            assert key(r[j]) == k;
          }
          if k == key(y) {
            assert key(r[|m|]) == k;
          }
        }
    }
  }

  /** Values with pairwise distinct keys pass through the map unchanged. */
  lemma {:induction false} MapValuesOfDistinct<T(!new), K>(xs: seq<T>, key: T -> K)
    requires DistinctKeys(xs, key)
    ensures MapValues(xs, key) == xs
  {
    if xs != [] {
      var init := xs[..|xs| - 1];
      MapValuesOfDistinct(init, key);
      assert FirstIndex(init, key, key(xs[|xs| - 1])) == None;
      assert init + [xs[|xs| - 1]] == xs;
    }
  }

  /** Setting a value already present changes nothing. */
  lemma {:induction false} MapSetPresent<T, K>(m: seq<T>, key: T -> K, i: nat)
    requires i < |m| && DistinctKeys(m[..i + 1], key)
    ensures MapSet(m, key, m[i]) == m
  {
    forall j | 0 <= j < i ensures key(m[j]) != key(m[i]) {
      assert m[..i + 1][j] == m[j] && m[..i + 1][i] == m[i];
    }
    assert FirstIndex(m, key, key(m[i])) == Some(i);
  }

  /** Setting a value under a new key appends it. */
  lemma {:induction false} MapSetNew<T, K>(m: seq<T>, key: T -> K, y: T)
    requires forall j :: 0 <= j < |m| ==> key(m[j]) != key(y)
    ensures MapSet(m, key, y) == m + [y]
  {
  }

  /** The last element of `b`, when `a` lacks it, has a key new to `a + Lacking(b', a)`. */
  lemma {:induction false} UnionKeysDiffer<T(!new), K>(a: seq<T>, b: seq<T>, key: T -> K, m: seq<T>)
    requires b != [] && b[|b| - 1] !in a
    requires m == a + Lacking(b[..|b| - 1], a)
    requires DistinctKeys(b, key)
    requires forall x, y :: x in a && y in b && key(x) == key(y) ==> x == y
    ensures forall j :: 0 <= j < |m| ==> key(m[j]) != key(b[|b| - 1])
  {
    var b' := b[..|b| - 1];
    var y := b[|b| - 1];
    var l := Lacking(b', a);
    forall j | 0 <= j < |a| ensures key(a[j]) != key(y) {
      assert a[j] in a && a[j] != y;
    }
    forall j | 0 <= j < |l| ensures key(l[j]) != key(y) {
      assert l[j] in b';
      var t :| 0 <= t < |b'| && b'[t] == l[j];
      assert b[t] == l[j];
    }
  }

  /** Mapping two lists with distinct keys, in which one key always means one value, lists
      the first list and then the elements of the second that the first lacks. */
  lemma {:induction false} MapValuesUnion<T(!new), K>(a: seq<T>, b: seq<T>, key: T -> K)
    requires DistinctKeys(a, key) && DistinctKeys(b, key)
    requires forall x, y :: x in a && y in b && key(x) == key(y) ==> x == y
    ensures MapValues(a + b, key) == a + Lacking(b, a)
  {
    if b == [] {
      assert a + b == a;
      MapValuesOfDistinct(a, key);
    } else {
      var b' := b[..|b| - 1];
      assert forall x :: x in b' ==> x in b;
      assert DistinctKeys(b', key);
      MapValuesUnion(a, b', key);
      MapValuesUnionStep(a, b, key);
    }
  }

  /** Mapping one more value of `xs` sets it in the map so far. */
  lemma {:induction false} MapValuesSnoc<T, K>(xs: seq<T>, y: T, key: T -> K)
    ensures MapValues(xs + [y], key) == MapSet(MapValues(xs, key), key, y)
  {
    assert (xs + [y])[..|xs|] == xs;
  }

  /** The step of `MapValuesUnion`: from all of `b` but its last element to all of `b`. */
  lemma {:induction false} MapValuesUnionStep<T(!new), K>(a: seq<T>, b: seq<T>, key: T -> K)
    requires b != []
    requires DistinctKeys(a, key) && DistinctKeys(b, key)
    requires forall x, y :: x in a && y in b && key(x) == key(y) ==> x == y
    requires MapValues(a + b[..|b| - 1], key) == a + Lacking(b[..|b| - 1], a)
    ensures MapValues(a + b, key) == a + Lacking(b, a)
  {
    var b' := b[..|b| - 1];
    var y := b[|b| - 1];
    var m := a + Lacking(b', a);
    assert a + b == (a + b') + [y];
    MapValuesSnoc(a + b', y, key);
    assert Lacking(b, a) == Lacking(b', a) + (if y in a then [] else [y]);
    if y in a {
      MapSetPresentInFirst(a, key, m, y);
      assert Lacking(b', a) + [] == Lacking(b', a);
    } else {
      UnionKeysDiffer(a, b, key, m);
      MapSetNew(m, key, y);
      AppendAssoc(a, Lacking(b', a), [y]);
    }
  }

  /** A value of the first list, set again on a map that starts with that list, changes nothing. */
  lemma {:induction false} MapSetPresentInFirst<T, K>(a: seq<T>, key: T -> K, m: seq<T>, y: T)
    requires DistinctKeys(a, key) && y in a && a <= m
    ensures MapSet(m, key, y) == m
  {
    var i :| 0 <= i < |a| && a[i] == y;
    assert m[..i + 1] == a[..i + 1];
    MapSetPresent(m, key, i);
  }

  /** `x` is the record `xs.find(x => key(x) === k)` returns. */
  predicate IsFirst<T(==), K(==)>(xs: seq<T>, key: T -> K, k: K, x: T) {
    exists i :: 0 <= i < |xs| && xs[i] == x && key(x) == k && forall j :: 0 <= j < i ==> key(xs[j]) != k
  }

  /** `find` succeeds exactly when some record has the key, and then returns the first one. */
  lemma {:induction false} FirstByKeyIsFirst<T, K>(xs: seq<T>, key: T -> K, k: K)
    ensures FirstByKey(xs, key, k).Some? <==> HasKey(xs, key, k)
    ensures FirstByKey(xs, key, k).Some? ==> IsFirst(xs, key, k, FirstByKey(xs, key, k).value)
  {
    match FirstIndex(xs, key, k)
    case Some(i) =>
      assert key(xs[i]) == k;
    case None =>
  }

  /** `xs.filter(x => key(x) === k)` */
  function SelectByKey<T(==,!new), K(==)>(xs: seq<T>, key: T -> K, k: K): (r: seq<T>)
    ensures forall x :: x in r <==> x in xs && key(x) == k
    ensures |r| == CountKey(xs, key, k)
  {
    if xs == [] then []
    else
      assert xs == [xs[0]] + xs[1..];
      (if key(xs[0]) == k then [xs[0]] else []) + SelectByKey(xs[1..], key, k)
  }

  /** Selecting by key is the generic filter with the key test as its predicate, so it keeps
      the input order. */
  lemma {:induction false} SelectByKeyIsFilter<T(!new), K>(xs: seq<T>, key: T -> K, k: K, p: T -> bool)
    requires forall x :: p(x) <==> key(x) == k
    ensures SelectByKey(xs, key, k) == Filter(xs, p)
    decreases |xs|
  {
    if xs != [] {
      SelectByKeyIsFilter(xs[1..], key, k, p);
    }
  }
}
