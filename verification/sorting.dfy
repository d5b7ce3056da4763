/** Python's `list.sort(key=lambda t: t[1])` on a list of `(item, key)` pairs.
    Python's sort is stable, so its result is the unique permutation that is
    ascending by key and keeps the original order among equal keys; the
    insertion sort below is one such sort, and the lemmas prove both halves. */
module Sorting {

  /** Ascending by the key component. */
  predicate SortedByKey<T>(xs: seq<(T, nat)>) {
    forall i, j | 0 <= i < j < |xs| :: xs[i].1 <= xs[j].1
  }

  /** The elements of `xs` whose key is `k`, in their order in `xs`. */
  function WithKey<T>(xs: seq<(T, nat)>, k: nat): seq<(T, nat)>
  {
    if xs == [] then []
    else if xs[0].1 == k then [xs[0]] + WithKey(xs[1..], k)
    else WithKey(xs[1..], k)
  }

  /** `i` is the position of the first element of `xs` with the least key. */
  predicate IsFirstMinimum<T>(xs: seq<(T, nat)>, i: int) {
    && 0 <= i < |xs|
    && (forall j | 0 <= j < |xs| :: xs[i].1 <= xs[j].1)
    && (forall j | 0 <= j < i :: xs[i].1 < xs[j].1)
  }

  /** Puts `x` in front of the first element whose key is not smaller. */
  function Insert<T>(x: (T, nat), ys: seq<(T, nat)>): (r: seq<(T, nat)>)
    ensures multiset(r) == multiset(ys) + multiset{x}
    ensures |r| == |ys| + 1
    ensures SortedByKey(ys) ==> SortedByKey(r)
  {
    if ys == [] || x.1 <= ys[0].1 then [x] + ys
    else
      var rest := Insert(x, ys[1..]);
      assert ys == [ys[0]] + ys[1..];
      InsertSortedStep(x, ys, rest);
      [ys[0]] + rest
  }

  lemma InsertSortedStep<T>(x: (T, nat), ys: seq<(T, nat)>, rest: seq<(T, nat)>)
    requires ys != [] && ys[0].1 < x.1
    requires multiset(rest) == multiset(ys[1..]) + multiset{x}
    requires SortedByKey(ys) ==> SortedByKey(rest)
    ensures SortedByKey(ys) ==> SortedByKey([ys[0]] + rest)
  {
    if SortedByKey(ys) {
      var r := [ys[0]] + rest;
      forall j | 0 <= j < |rest| ensures ys[0].1 <= rest[j].1 {
        assert rest[j] in multiset(rest);
        if rest[j] != x {
          assert rest[j] in multiset(ys[1..]);
          var m :| 0 <= m < |ys[1..]| && ys[1..][m] == rest[j];
          assert ys[m + 1] == rest[j];
        }
      }
      forall i, j | 0 <= i < j < |r| ensures r[i].1 <= r[j].1 {
        if i > 0 {
          assert r[i] == rest[i - 1] && r[j] == rest[j - 1];
        } else {
          assert r[j] == rest[j - 1];
        }
      }
    }
  }

  /** Stable insertion sort by key. */
  function SortByKey<T>(xs: seq<(T, nat)>): (r: seq<(T, nat)>)
    ensures multiset(r) == multiset(xs)
    ensures |r| == |xs|
    ensures SortedByKey(r)
  {
    if xs == [] then []
    else
      assert xs == [xs[0]] + xs[1..];
      Insert(xs[0], SortByKey(xs[1..]))
  }

  lemma {:induction false} InsertWithKey<T>(x: (T, nat), ys: seq<(T, nat)>, k: nat)
    ensures WithKey(Insert(x, ys), k) == (if x.1 == k then [x] else []) + WithKey(ys, k)
    decreases |ys|
  {
    if ys == [] || x.1 <= ys[0].1 {
      assert ([x] + ys)[1..] == ys;
    } else {
      InsertWithKey(x, ys[1..], k);
      assert ([ys[0]] + Insert(x, ys[1..]))[1..] == Insert(x, ys[1..]);
    }
  }

  /** Stability: sorting keeps, for every key, the order of the elements carrying it. */
  lemma {:induction false} SortIsStable<T>(xs: seq<(T, nat)>, k: nat)
    ensures WithKey(SortByKey(xs), k) == WithKey(xs, k)
    decreases |xs|
  {
    if xs != [] {
      SortIsStable(xs[1..], k);
      InsertWithKey(xs[0], SortByKey(xs[1..]), k);
    }
  }

  lemma {:induction false} WithKeyOfUniform<T>(xs: seq<(T, nat)>, k: nat)
    requires forall i | 0 <= i < |xs| :: xs[i].1 == k
    ensures WithKey(xs, k) == xs
    decreases |xs|
  {
    if xs != [] {
      WithKeyOfUniform(xs[1..], k);
    }
  }

  /** When every key is the same, the stable sort returns its input unchanged. */
  lemma UniformKeysAreNotReordered<T>(xs: seq<(T, nat)>, k: nat)
    requires forall i | 0 <= i < |xs| :: xs[i].1 == k
    ensures SortByKey(xs) == xs
  {
    var r := SortByKey(xs);
    forall i | 0 <= i < |r| ensures r[i].1 == k {
      assert r[i] in multiset(xs);
    }
    WithKeyOfUniform(xs, k);
    WithKeyOfUniform(r, k);
    SortIsStable(xs, k);
  }

  /** The head of the stable sort is the first element with the least key. */
  lemma {:induction false} SortHeadIsFirstMinimum<T>(xs: seq<(T, nat)>)
    requires |xs| > 0
    ensures exists i :: IsFirstMinimum(xs, i) && SortByKey(xs)[0] == xs[i]
    decreases |xs|
  {
    var tail := xs[1..];
    assert xs == [xs[0]] + tail;
    var rest := SortByKey(tail);
    assert SortByKey(xs) == Insert(xs[0], rest);
    if |xs| == 1 {
      assert IsFirstMinimum(xs, 0);
    } else {
      SortHeadIsFirstMinimum(tail);
      var i' :| IsFirstMinimum(tail, i') && rest[0] == tail[i'];
      if xs[0].1 <= rest[0].1 {
        MinimumStep(xs, tail, i', 0);
      } else {
        MinimumStep(xs, tail, i', i' + 1);
        assert SortByKey(xs)[0] == xs[i' + 1];
      }
    }
  }

  lemma MinimumStep<T>(xs: seq<(T, nat)>, tail: seq<(T, nat)>, i': nat, i: nat)
    requires |xs| > 1 && tail == xs[1..]
    requires IsFirstMinimum(tail, i')
    requires i == 0 || i == i' + 1
    requires i == 0 <==> xs[0].1 <= tail[i'].1
    ensures IsFirstMinimum(xs, i)
  {
    forall j | 0 <= j < |xs| ensures xs[i].1 <= xs[j].1 {
      if j > 0 {
        assert xs[j] == tail[j - 1];
      }
    }
    forall j | 0 <= j < i ensures xs[i].1 < xs[j].1 {
      if j > 0 {
        assert xs[j] == tail[j - 1];
      }
    }
  }
}
