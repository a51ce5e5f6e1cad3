/** Generic sequence operations shared by the collection handlers. */
module Seqs {

  /** No element occurs twice. */
  predicate NoDup<T(==)>(xs: seq<T>) {
    forall i, j :: 0 <= i < j < |xs| ==> xs[i] != xs[j]
  }

  /** `Array.from(new Set(xs))`: every element once, at its first occurrence. */
  function Dedup<T(==,!new)>(xs: seq<T>): (r: seq<T>)
    ensures NoDup(r)
    ensures forall x :: x in r <==> x in xs
    ensures |r| <= |xs|
    decreases |xs|
  {
    if xs == [] then []
    else
      var d := Dedup(xs[..|xs| - 1]);
      if xs[|xs| - 1] in d then d else d + [xs[|xs| - 1]]
  }

  lemma DedupSnoc<T(!new)>(xs: seq<T>, x: T)
    ensures Dedup(xs + [x]) == if x in Dedup(xs) then Dedup(xs) else Dedup(xs) + [x]
  {
    assert (xs + [x])[..|xs|] == xs;
  }

  /** A list that is already duplicate-free is left as it is. */
  lemma {:induction false} DedupOfNoDup<T(!new)>(xs: seq<T>)
    requires NoDup(xs)
    ensures Dedup(xs) == xs
    decreases |xs|
  {
    if xs != [] {
      var init := xs[..|xs| - 1];
      assert NoDup(init);
      DedupOfNoDup(init);
      assert xs[|xs| - 1] !in init;
    }
  }

  /** Deduplicating a longer list never yields fewer elements. */
  lemma {:induction false} DedupPrefixLength<T(!new)>(xs: seq<T>, ys: seq<T>)
    ensures |Dedup(xs)| <= |Dedup(xs + ys)|
    decreases |ys|
  {
    if ys == [] {
      assert xs + ys == xs;
    } else {
      var init := ys[..|ys| - 1];
      assert xs + ys == (xs + init) + [ys[|ys| - 1]];
      DedupSnoc(xs + init, ys[|ys| - 1]);
      DedupPrefixLength(xs, init);
    }
  }

  /** `xs.filter(y => y !== x)` */
  function Without<T(==,!new)>(xs: seq<T>, x: T): (r: seq<T>)
    ensures forall y :: y in r <==> y in xs && y != x
    ensures multiset(r) == multiset(xs)[x := 0]
    ensures x !in xs ==> r == xs
    ensures |r| <= |xs|
  {
    if xs == [] then []
    else
      assert xs == [xs[0]] + xs[1..];
      (if xs[0] == x then [] else [xs[0]]) + Without(xs[1..], x)
  }

  /** Filtering distributes over concatenation. */
  lemma {:induction false} WithoutAppend<T(!new)>(xs: seq<T>, ys: seq<T>, x: T)
    ensures Without(xs + ys, x) == Without(xs, x) + Without(ys, x)
  {
    if xs != [] {
      var h := if xs[0] == x then [] else [xs[0]];
      assert (xs + ys)[0] == xs[0] && (xs + ys)[1..] == xs[1..] + ys;
      assert Without(xs + ys, x) == h + Without(xs[1..] + ys, x);
      WithoutAppend(xs[1..], ys, x);
      assert Without(xs, x) == h + Without(xs[1..], x);
      AppendAssoc(h, Without(xs[1..], x), Without(ys, x));
    } else {
      assert xs + ys == ys;
    }
  }

  /** Concatenation is associative. */
  lemma AppendAssoc<T>(a: seq<T>, b: seq<T>, c: seq<T>)
    ensures a + (b + c) == (a + b) + c
  {
  }

  /** Filtering keeps a duplicate-free list duplicate-free. */
  lemma {:induction false} WithoutNoDup<T(!new)>(xs: seq<T>, x: T)
    requires NoDup(xs)
    ensures NoDup(Without(xs, x))
    decreases |xs|
  {
    if xs != [] {
      var tail := xs[1..];
      assert NoDup(tail);
      WithoutNoDup(tail, x);
      if xs[0] != x {
        assert xs[0] !in tail;
        ConsNoDup(xs[0], Without(tail, x));
      }
    }
  }

  /** Putting a new element in front keeps a list duplicate-free. */
  lemma {:induction false} ConsNoDup<T>(a: T, t: seq<T>)
    requires NoDup(t) && a !in t
    ensures NoDup([a] + t)
  {
    var r := [a] + t;
    forall i, j | 0 <= i < j < |r| ensures r[i] != r[j] {
      assert r[j] == t[j - 1];
      if i > 0 {
        assert r[i] == t[i - 1];
      }
    }
  }

  /** In a duplicate-free list every element occurs at most once. */
  lemma {:induction false} NoDupCount<T>(xs: seq<T>, y: T)
    requires NoDup(xs)
    ensures multiset(xs)[y] <= 1
    decreases |xs|
  {
    if xs != [] {
      assert xs == [xs[0]] + xs[1..];
      assert NoDup(xs[1..]);
      NoDupCount(xs[1..], y);
      if xs[0] == y {
        assert y !in xs[1..];
      }
    }
  }

  /** Keys never increase along the sequence. */
  predicate NonIncreasing<T>(xs: seq<T>, key: T -> int) {
    forall i, j :: 0 <= i < j < |xs| ==> key(xs[i]) >= key(xs[j])
  }

  /** Inserts `x` in front of the first element whose key is not larger. */
  function InsertDesc<T(==)>(x: T, s: seq<T>, key: T -> int): (r: seq<T>)
    requires NonIncreasing(s, key)
    ensures NonIncreasing(r, key)
    ensures multiset(r) == multiset(s) + multiset{x}
    ensures |r| == |s| + 1
    ensures r[0] == x || (s != [] && r[0] == s[0])
    decreases |s|
  {
    if s == [] || key(s[0]) <= key(x) then
      ConsNonIncreasing(x, s, key);
      [x] + s
    else
      var t := InsertDesc(x, s[1..], key);
      assert s == [s[0]] + s[1..];
      ConsNonIncreasing(s[0], t, key);
      [s[0]] + t
  }

  /** Putting an element with a key no smaller than the head's in front keeps the order. */
  lemma {:induction false} ConsNonIncreasing<T>(a: T, t: seq<T>, key: T -> int)
    requires NonIncreasing(t, key)
    requires t != [] ==> key(t[0]) <= key(a)
    ensures NonIncreasing([a] + t, key)
  {
    var r := [a] + t;
    forall i, j | 0 <= i < j < |r| ensures key(r[i]) >= key(r[j]) {
      assert r[j] == t[j - 1];
      if i > 0 {
        assert r[i] == t[i - 1];
      }
    }
  }

  /** Stable sort by descending key: `[...xs].sort((a, b) => key(b) - key(a))`. */
  function SortDesc<T(==)>(xs: seq<T>, key: T -> int): (r: seq<T>)
    ensures NonIncreasing(r, key)
    ensures multiset(r) == multiset(xs)
    ensures |r| == |xs|
  {
    if xs == [] then []
    else
      assert xs == [xs[0]] + xs[1..];
      InsertDesc(xs[0], SortDesc(xs[1..], key), key)
  }

  /** The elements whose key is `v`, in order. */
  function WithKey<T>(xs: seq<T>, key: T -> int, v: int): seq<T> {
    if xs == [] then []
    else (if key(xs[0]) == v then [xs[0]] else []) + WithKey(xs[1..], key, v)
  }

  lemma {:induction false} InsertDescWithKey<T>(x: T, s: seq<T>, key: T -> int, v: int)
    requires NonIncreasing(s, key)
    ensures WithKey(InsertDesc(x, s, key), key, v)
         == (if key(x) == v then [x] else []) + WithKey(s, key, v)
    decreases |s|
  {
    if s == [] || key(s[0]) <= key(x) {
      var r := [x] + s;
      assert r[1..] == s;
    } else {
      var t := InsertDesc(x, s[1..], key);
      InsertDescWithKey(x, s[1..], key, v);
      assert ([s[0]] + t)[1..] == t;
    }
  }

  /** The sort is stable: for every key, the elements with that key keep their input order. */
  lemma {:induction false} SortDescStable<T>(xs: seq<T>, key: T -> int, v: int)
    ensures WithKey(SortDesc(xs, key), key, v) == WithKey(xs, key, v)
    decreases |xs|
  {
    if xs != [] {
      SortDescStable(xs[1..], key, v);
      InsertDescWithKey(xs[0], SortDesc(xs[1..], key), key, v);
    }
  }

  /** `xs.slice(0, n)` for a non-negative `n`. */
  function Take<T>(xs: seq<T>, n: nat): (r: seq<T>)
    ensures |r| == if n < |xs| then n else |xs|
    ensures r == xs[..|r|]
  {
    if n < |xs| then xs[..n] else xs
  }

  /** `[...xs].sort((a, b) => key(b) - key(a)).slice(0, n)`: the `n` highest-ranked elements. */
  function TopRanked<T(==)>(xs: seq<T>, key: T -> int, n: nat): (r: seq<T>)
    ensures |r| == if n < |xs| then n else |xs|
    ensures NonIncreasing(r, key)
    ensures multiset(r) <= multiset(xs)
  {
    var s := SortDesc(xs, key);
    var r := Take(s, n);
    assert s == r + s[|r|..];
    assert multiset(s) == multiset(r) + multiset(s[|r|..]);
    r
  }

  /** Nothing left out of the ranking outranks anything kept. */
  lemma {:induction false} TopRankedIsTop<T>(xs: seq<T>, key: T -> int, n: nat, x: T, y: T)
    requires x in multiset(xs) - multiset(TopRanked(xs, key, n))
    requires y in TopRanked(xs, key, n)
    ensures key(x) <= key(y)
  {
    var s := SortDesc(xs, key);
    var r := TopRanked(xs, key, n);
    var m := |r|;
    assert s == s[..m] + s[m..];
    assert multiset(xs) == multiset(s[..m]) + multiset(s[m..]);
    assert x in multiset(s[m..]);
    var j :| 0 <= j < |s[m..]| && s[m..][j] == x;
    var i :| 0 <= i < m && s[i] == y;
    assert s[m + j] == x;
  }

  /** Cutting a list keeps, for every key, a prefix of the elements with that key. */
  lemma {:induction false} WithKeyPrefix<T>(xs: seq<T>, key: T -> int, v: int, m: nat)
    requires m <= |xs|
    ensures WithKey(xs[..m], key, v) <= WithKey(xs, key, v)
  {
    if m > 0 {
      assert xs[..m][0] == xs[0] && xs[..m][1..] == xs[1..][..m - 1];
      WithKeyPrefix(xs[1..], key, v, m - 1);
    }
  }

  /** The ranking is stable: among equal keys, the kept elements are the first ones of the
      input, in input order. */
  lemma {:induction false} TopRankedStable<T>(xs: seq<T>, key: T -> int, n: nat, v: int)
    ensures WithKey(TopRanked(xs, key, n), key, v) <= WithKey(xs, key, v)
  {
    var s := SortDesc(xs, key);
    SortDescStable(xs, key, v);
    WithKeyPrefix(s, key, v, |TopRanked(xs, key, n)|);
  }

  /** `xs.filter(p)` */
  function Filter<T(==,!new)>(xs: seq<T>, p: T -> bool): (r: seq<T>)
    ensures forall x :: x in r <==> x in xs && p(x)
    ensures |r| <= |xs|
  {
    if xs == [] then []
    else
      assert xs == [xs[0]] + xs[1..];
      (if p(xs[0]) then [xs[0]] else []) + Filter(xs[1..], p)
  }

  /** Filtering works element by element, so it keeps the input order. */
  lemma {:induction false} FilterAppend<T(!new)>(a: seq<T>, b: seq<T>, p: T -> bool)
    ensures Filter(a + b, p) == Filter(a, p) + Filter(b, p)
  {
    if a == [] {
      assert a + b == b;
    } else {
      assert (a + b)[0] == a[0] && (a + b)[1..] == a[1..] + b;
      FilterAppend(a[1..], b, p);
    }
  }

  /** The elements of `b` that `a` lacks, in order (`b.filter(x => !a.includes(x))`). */
  function Lacking<T(==,!new)>(b: seq<T>, a: seq<T>): (r: seq<T>)
    ensures forall x :: x in r <==> x in b && x !in a
    ensures |r| <= |b|
  {
    if b == [] then []
    else
      assert b == b[..|b| - 1] + [b[|b| - 1]];
      Lacking(b[..|b| - 1], a) + (if b[|b| - 1] in a then [] else [b[|b| - 1]])
  }

  /** `xs.filter(x => allowed.includes(x))`, the `Set.has` filter. */
  function KeepIn<T(==,!new)>(xs: seq<T>, allowed: seq<T>): (r: seq<T>)
    ensures forall x :: x in r <==> x in xs && x in allowed
    ensures |r| <= |xs|
  {
    if xs == [] then []
    else
      assert xs == [xs[0]] + xs[1..];
      (if xs[0] in allowed then [xs[0]] else []) + KeepIn(xs[1..], allowed)
  }

  /** Filtering works element by element, so it keeps the input order. */
  lemma {:induction false} KeepInAppend<T(!new)>(a: seq<T>, b: seq<T>, allowed: seq<T>)
    ensures KeepIn(a + b, allowed) == KeepIn(a, allowed) + KeepIn(b, allowed)
  {
    if a == [] {
      assert a + b == b;
    } else {
      assert (a + b)[0] == a[0] && (a + b)[1..] == a[1..] + b;
      KeepInAppend(a[1..], b, allowed);
    }
  }

  /** A list whose every element is allowed passes the filter unchanged. */
  lemma {:induction false} KeepInAllAllowed<T(!new)>(xs: seq<T>, allowed: seq<T>)
    requires forall k :: 0 <= k < |xs| ==> xs[k] in allowed
    ensures KeepIn(xs, allowed) == xs
  {
    if xs != [] {
      KeepInAllAllowed(xs[1..], allowed);
    }
  }

  /** Filtering twice is filtering once. */
  lemma {:induction false} KeepInIdempotent<T(!new)>(xs: seq<T>, allowed: seq<T>)
    ensures KeepIn(KeepIn(xs, allowed), allowed) == KeepIn(xs, allowed)
  {
    var r := KeepIn(xs, allowed);
    forall k | 0 <= k < |r| ensures r[k] in allowed {
      assert r[k] in r;
    }
    KeepInAllAllowed(r, allowed);
  }
}
