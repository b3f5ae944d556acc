/**
 * The ranking used by the range summary: a copy of the report sorted by a
 * count, largest first, cut to its first five rows. JavaScript's array sort
 * is stable, so rows with equal counts keep their report order.
 */
module Ranking {

  const TOP_N: nat := 5

  /** Inserts `x` before the first element whose key is at most `x`'s. */
  function Insert<T>(x: T, s: seq<T>, key: T -> nat): (r: seq<T>)
    ensures |r| == |s| + 1
    ensures multiset(r) == multiset(s) + multiset{x}
  {
    if s == [] || key(s[0]) <= key(x) then [x] + s
    else
      assert s == [s[0]] + s[1..];
      [s[0]] + Insert(x, s[1..], key)
  }

  /** Stable sort by non-increasing key. */
  function SortDesc<T>(s: seq<T>, key: T -> nat): (r: seq<T>)
    ensures |r| == |s|
    ensures multiset(r) == multiset(s)
  {
    if s == [] then []
    else
      assert s == [s[0]] + s[1..];
      Insert(s[0], SortDesc(s[1..], key), key)
  }

  ghost predicate NonIncreasing<T>(s: seq<T>, key: T -> nat)
  {
    forall i, j :: 0 <= i < j < |s| ==> key(s[i]) >= key(s[j])
  }

  /** The elements whose key is `v`, in order. */
  function WithKey<T>(s: seq<T>, key: T -> nat, v: nat): (r: seq<T>)
    ensures |r| <= |s|
  {
    if s == [] then []
    else (if key(s[0]) == v then [s[0]] else []) + WithKey(s[1..], key, v)
  }

  ghost predicate AllAtMost<T>(s: seq<T>, key: T -> nat, b: nat)
  {
    forall i :: 0 <= i < |s| ==> key(s[i]) <= b
  }

  lemma {:induction false} InsertAtMost<T>(x: T, s: seq<T>, key: T -> nat, b: nat)
    requires AllAtMost(s, key, b) && key(x) <= b
    ensures AllAtMost(Insert(x, s, key), key, b)
  {
    if s != [] && key(s[0]) > key(x) {
      InsertAtMost(x, s[1..], key, b);
    }
  }

  lemma {:induction false} InsertNonIncreasing<T>(x: T, s: seq<T>, key: T -> nat)
    requires NonIncreasing(s, key)
    ensures NonIncreasing(Insert(x, s, key), key)
  {
    if s != [] && key(s[0]) > key(x) {
      var rest := Insert(x, s[1..], key);
      InsertNonIncreasing(x, s[1..], key);
      InsertAtMost(x, s[1..], key, key(s[0]));
      var r := [s[0]] + rest;
      forall i, j | 0 <= i < j < |r| ensures key(r[i]) >= key(r[j]) {
        assert r[j] == rest[j - 1];
        if i > 0 {
          assert r[i] == rest[i - 1];
        }
      }
    }
  }

  lemma {:induction false} SortDescNonIncreasing<T>(s: seq<T>, key: T -> nat)
    ensures NonIncreasing(SortDesc(s, key), key)
  {
    if s != [] {
      SortDescNonIncreasing(s[1..], key);
      InsertNonIncreasing(s[0], SortDesc(s[1..], key), key);
    }
  }

  /** Elements skipped by the insertion all have a larger key than `x`. */
  lemma {:induction false} InsertWithKey<T>(x: T, s: seq<T>, key: T -> nat, v: nat)
    ensures WithKey(Insert(x, s, key), key, v)
      == (if key(x) == v then [x] else []) + WithKey(s, key, v)
  {
    if s == [] || key(s[0]) <= key(x) {
      assert ([x] + s)[1..] == s;
    } else {
      InsertWithKey(x, s[1..], key, v);
      assert ([s[0]] + Insert(x, s[1..], key))[1..] == Insert(x, s[1..], key);
    }
  }

  /** Stability: the elements of any one key keep their original relative order. */
  lemma {:induction false} SortDescStable<T>(s: seq<T>, key: T -> nat, v: nat)
    ensures WithKey(SortDesc(s, key), key, v) == WithKey(s, key, v)
  {
    if s != [] {
      SortDescStable(s[1..], key, v);
      InsertWithKey(s[0], SortDesc(s[1..], key), key, v);
    }
  }

  function Min(a: nat, b: nat): nat { if a <= b then a else b }

  /** The first five of the stable descending sort. */
  function Top<T>(s: seq<T>, key: T -> nat): (r: seq<T>)
    ensures |r| == Min(TOP_N, |s|)
    ensures r == SortDesc(s, key)[..|r|]
  {
    SortDesc(s, key)[..Min(TOP_N, |s|)]
  }

  /**
   * The top list has `min(5, |s|)` elements, in non-increasing key order,
   * all drawn from `s`, and nothing outside it has a larger key than its last.
   */
  lemma TopProperties<T>(s: seq<T>, key: T -> nat)
    ensures |Top(s, key)| == Min(TOP_N, |s|)
    ensures NonIncreasing(Top(s, key), key)
    ensures multiset(Top(s, key)) <= multiset(s)
    ensures forall x :: x in Top(s, key) ==> x in s
    ensures |s| > TOP_N ==> forall j :: TOP_N <= j < |s| ==> key(SortDesc(s, key)[j]) <= key(Top(s, key)[TOP_N - 1])
  {
    var sorted := SortDesc(s, key);
    var top := Top(s, key);
    SortDescNonIncreasing(s, key);
    assert sorted == top + sorted[|top|..];
    assert multiset(sorted) == multiset(top) + multiset(sorted[|top|..]);
    forall x | x in top ensures x in s {
      assert x in multiset(top);
      assert x in multiset(s);
    }
  }
}
