/** Sequence helpers shared by the ingestion daemon and the view: filtering by a key,
    first-match lookup (Django's and SQLAlchemy's `filter(...).first()`), distinctness. */
module Seqs {
  import opened Wrappers

  /** The elements of `s` whose key is `k`, in their order in `s`. */
  ghost function WithKey<T, K>(s: seq<T>, key: T -> K, k: K): seq<T>
  {
    if s == [] then []
    else (if key(s[0]) == k then [s[0]] else []) + WithKey(s[1..], key, k)
  }

  /** The filter keeps exactly the elements with key `k`, each as often as it occurs in `s`. */
  lemma {:induction false} WithKeyContents<T, K>(s: seq<T>, key: T -> K, k: K)
    ensures forall x :: x in WithKey(s, key, k) ==> x in s && key(x) == k
    ensures multiset(WithKey(s, key, k)) <= multiset(s)
    ensures forall x :: x in s && key(x) == k ==> multiset(WithKey(s, key, k))[x] == multiset(s)[x]
  {
    if s != [] {
      assert s == [s[0]] + s[1..];
      WithKeyContents(s[1..], key, k);
    }
  }

  lemma {:induction false} WithKeyAppend<T, K>(a: seq<T>, b: seq<T>, key: T -> K, k: K)
    ensures WithKey(a + b, key, k) == WithKey(a, key, k) + WithKey(b, key, k)
  {
    if a == [] {
      assert a + b == b;
    } else {
      var head := if key(a[0]) == k then [a[0]] else [];
      assert (a + b)[0] == a[0];
      assert (a + b)[1..] == a[1..] + b;
      assert WithKey(a + b, key, k) == head + WithKey(a[1..] + b, key, k);
      WithKeyAppend(a[1..], b, key, k);
      assert WithKey(a, key, k) == head + WithKey(a[1..], key, k);
    }
  }

  lemma WithKeySingle<T, K>(x: T, key: T -> K, k: K)
    ensures WithKey([x], key, k) == if key(x) == k then [x] else []
  {
    assert WithKey([x], key, k) == (if key(x) == k then [x] else []) + WithKey([x][1..], key, k);
  }

  /** Filtering a sequence extended by one element. */
  lemma WithKeySnoc<T, K>(s: seq<T>, x: T, key: T -> K, k: K)
    ensures WithKey(s + [x], key, k) == WithKey(s, key, k) + (if key(x) == k then [x] else [])
  {
    WithKeyAppend(s, [x], key, k);
    WithKeySingle(x, key, k);
  }

  /** The position of the first element of `s` whose key is `k`, or `|s|` when there is none. */
  function IndexOfKey<T, K(==)>(s: seq<T>, key: T -> K, k: K): (i: nat)
    ensures i <= |s|
    ensures i < |s| ==> key(s[i]) == k
    ensures forall j :: 0 <= j < i ==> key(s[j]) != k
  {
    if s == [] then 0
    else if key(s[0]) == k then 0
    else
      var i := IndexOfKey(s[1..], key, k);
      assert forall j :: 0 < j <= i ==> s[j] == s[1..][j - 1];
      i + 1
  }

  /** The first element of `s` whose key is `k` (the order of `s` is the query's order). */
  function FirstWithKey<T, K(==)>(s: seq<T>, key: T -> K, k: K): (r: Option<T>)
    ensures r.None? <==> forall x :: x in s ==> key(x) != k
    ensures r.Some? ==> exists i :: 0 <= i < |s| && s[i] == r.value && key(s[i]) == k &&
                                    forall j :: 0 <= j < i ==> key(s[j]) != k
  {
    var i := IndexOfKey(s, key, k);
    if i < |s| then Some(s[i]) else None
  }

  /** No element with key `k`, nothing in the filter. */
  lemma {:induction false} WithKeyNone<T, K>(s: seq<T>, key: T -> K, k: K)
    requires forall x :: x in s ==> key(x) != k
    ensures WithKey(s, key, k) == []
  {
    if s != [] {
      assert s[0] in s;
      assert forall x :: x in s[1..] ==> x in s;
      WithKeyNone(s[1..], key, k);
    }
  }

  lemma PrefixSnoc<T>(s: seq<T>, i: nat)
    requires i < |s|
    ensures s[..i + 1] == s[..i] + [s[i]]
  {
  }

  lemma Regroup<T>(a: seq<T>, b: seq<T>, c: seq<T>, d: seq<T>, e: seq<T>)
    ensures (a + (b + c + d)) + e == (a + b + c) + (d + e)
  {
  }

  ghost predicate Distinct<T>(s: seq<T>) {
    forall i, j :: 0 <= i < j < |s| ==> s[i] != s[j]
  }

  lemma {:induction false} DistinctCountAtMostOne<T>(s: seq<T>, x: T)
    requires Distinct(s)
    ensures multiset(s)[x] <= 1
  {
    if s != [] {
      assert s == [s[0]] + s[1..];
      assert Distinct(s[1..]) by {
        forall i, j | 0 <= i < j < |s[1..]| ensures s[1..][i] != s[1..][j] {
          assert s[1..][i] == s[i + 1] && s[1..][j] == s[j + 1];
        }
      }
      DistinctCountAtMostOne(s[1..], x);
      if x == s[0] {
        assert x !in s[1..] by {
          forall j | 0 <= j < |s[1..]| ensures s[1..][j] != x {
            assert s[1..][j] == s[j + 1];
          }
        }
      }
    }
  }

  lemma RepeatedCountAtLeastTwo<T>(s: seq<T>, i: nat, j: nat)
    requires i < j < |s| && s[i] == s[j]
    ensures multiset(s)[s[i]] >= 2
  {
    assert s == s[..j] + [s[j]] + s[j + 1..];
    assert s[i] in s[..j] by { assert s[..j][i] == s[i]; }
  }

  /** Every sub-multiset of a duplicate-free sequence is duplicate-free. */
  lemma SubMultisetDistinct<T>(s: seq<T>, r: seq<T>)
    requires Distinct(s) && multiset(r) <= multiset(s)
    ensures Distinct(r)
  {
    forall i, j | 0 <= i < j < |r| ensures r[i] != r[j] {
      if r[i] == r[j] {
        RepeatedCountAtLeastTwo(r, i, j);
        DistinctCountAtMostOne(s, r[i]);
        assert false;
      }
    }
  }
}
