/** Python's `sorted(xs, key=key, reverse=True)[:n]`: a stable sort into descending key order
    (elements with equal keys keep their input order), then the first `n` elements. */
module Sorting {
  import opened Seqs

  ghost predicate TotalOrder<K(!new)>(le: (K, K) -> bool) {
    && (forall a, b :: le(a, b) || le(b, a))
    && (forall a, b :: le(a, b) && le(b, a) ==> a == b)
    && (forall a, b, c :: le(a, b) && le(b, c) ==> le(a, c))
  }

  /** Keys never increase from left to right. */
  ghost predicate SortedDesc<T, K>(s: seq<T>, key: T -> K, le: (K, K) -> bool) {
    forall i, j :: 0 <= i < j < |s| ==> le(key(s[j]), key(s[i]))
  }

  function Min(a: int, b: int): int { if a <= b then a else b }

  /** Places `x` before the first element whose key is not above its own. */
  function Insert<T, K>(x: T, s: seq<T>, key: T -> K, le: (K, K) -> bool): seq<T> {
    if s == [] then [x]
    else if le(key(s[0]), key(x)) then [x] + s
    else [s[0]] + Insert(x, s[1..], key, le)
  }

  function SortDesc<T, K>(s: seq<T>, key: T -> K, le: (K, K) -> bool): seq<T> {
    if s == [] then []
    else Insert(s[0], SortDesc(s[1..], key, le), key, le)
  }

  /** `sorted(s, key=key, reverse=True)[:n]` */
  function Newest<T, K>(s: seq<T>, key: T -> K, le: (K, K) -> bool, n: nat): seq<T> {
    SortDescPermutes(s, key, le);
    SortDesc(s, key, le)[..Min(n, |s|)]
  }

  /** Inserting adds exactly `x`. */
  lemma {:induction false} InsertMultiset<T, K>(x: T, s: seq<T>, key: T -> K, le: (K, K) -> bool)
    ensures multiset(Insert(x, s, key, le)) == multiset(s) + multiset{x}
  {
    if s != [] {
      assert s == [s[0]] + s[1..];
      if !le(key(s[0]), key(x)) {
        InsertMultiset(x, s[1..], key, le);
      }
    }
  }

  /** The sort returns a permutation of its input. */
  lemma {:induction false} SortDescPermutes<T, K>(s: seq<T>, key: T -> K, le: (K, K) -> bool)
    ensures multiset(SortDesc(s, key, le)) == multiset(s)
    ensures |SortDesc(s, key, le)| == |s|
  {
    if s != [] {
      assert s == [s[0]] + s[1..];
      SortDescPermutes(s[1..], key, le);
      InsertMultiset(s[0], SortDesc(s[1..], key, le), key, le);
    }
  }

  /** `sorted(s)[:n]` has min(n, |s|) elements, all taken from `s`, and all of `s` when `|s| <= n`. */
  lemma NewestContents<T, K>(s: seq<T>, key: T -> K, le: (K, K) -> bool, n: nat)
    ensures |Newest(s, key, le, n)| == Min(n, |s|)
    ensures multiset(Newest(s, key, le, n)) <= multiset(s)
    ensures |s| <= n ==> multiset(Newest(s, key, le, n)) == multiset(s)
  {
    var t := SortDesc(s, key, le);
    SortDescPermutes(s, key, le);
    assert t == t[..Min(n, |s|)] + t[Min(n, |s|)..];
  }

  lemma {:induction false} InsertSorted<T, K(!new)>(x: T, s: seq<T>, key: T -> K, le: (K, K) -> bool)
    requires TotalOrder(le) && SortedDesc(s, key, le)
    ensures SortedDesc(Insert(x, s, key, le), key, le)
  {
    if s != [] {
      if le(key(s[0]), key(x)) {
        forall y | y in s ensures le(key(y), key(x)) {
          HeadIsGreatest(s, key, le, y);
        }
        SortedCons(x, s, key, le);
      } else {
        var rest := Insert(x, s[1..], key, le);
        SortedTail(s, key, le);
        InsertSorted(x, s[1..], key, le);
        InsertMultiset(x, s[1..], key, le);
        forall y | y in rest ensures le(key(y), key(s[0])) {
          assert y in multiset(rest);
          if y != x {
            assert y in s[1..];
            HeadIsGreatest(s, key, le, y);
          }
        }
        SortedCons(s[0], rest, key, le);
      }
    }
  }

  /** The tail of a descending sequence is descending. */
  lemma SortedTail<T, K>(s: seq<T>, key: T -> K, le: (K, K) -> bool)
    requires s != [] && SortedDesc(s, key, le)
    ensures SortedDesc(s[1..], key, le)
  {
    forall i, j | 0 <= i < j < |s[1..]| ensures le(key(s[1..][j]), key(s[1..][i])) {
      assert s[1..][i] == s[i + 1] && s[1..][j] == s[j + 1];
    }
  }

  /** In a descending sequence nothing ranks above the head. */
  lemma HeadIsGreatest<T, K>(s: seq<T>, key: T -> K, le: (K, K) -> bool, y: T)
    requires s != [] && SortedDesc(s, key, le) && y in s
    requires le(key(s[0]), key(s[0]))
    ensures le(key(y), key(s[0]))
  {
    var j :| 0 <= j < |s| && s[j] == y;
  }

  /** An element ranking above everything of a descending sequence can be put in front of it. */
  lemma SortedCons<T, K>(y: T, t: seq<T>, key: T -> K, le: (K, K) -> bool)
    requires SortedDesc(t, key, le)
    requires forall z :: z in t ==> le(key(z), key(y))
    ensures SortedDesc([y] + t, key, le)
  {
    var r := [y] + t;
    forall i, j | 0 <= i < j < |r| ensures le(key(r[j]), key(r[i])) {
      if i == 0 {
        assert r[j] == t[j - 1] && r[j] in t;
      } else {
        assert r[i] == t[i - 1] && r[j] == t[j - 1];
      }
    }
  }

  /** Inserting keeps, for every key, the elements with that key in the order of `[x] + s`. */
  lemma {:induction false} InsertWithKey<T, K>(x: T, s: seq<T>, key: T -> K, le: (K, K) -> bool, k: K)
    requires le(key(x), key(x))
    ensures WithKey(Insert(x, s, key, le), key, k) == WithKey([x] + s, key, k)
  {
    if s != [] && !le(key(s[0]), key(x)) {
      var rest := Insert(x, s[1..], key, le);
      assert Insert(x, s, key, le) == [s[0]] + rest;
      InsertWithKey(x, s[1..], key, le, k);
      SwapDistinctKeys(s[0], x, s[1..], rest, key, k);
      assert [s[0]] + s[1..] == s;
    }
  }

  /** Two elements with different keys may trade places without changing any filter by key. */
  lemma SwapDistinctKeys<T, K>(y: T, x: T, t: seq<T>, u: seq<T>, key: T -> K, k: K)
    requires key(y) != key(x)
    requires WithKey(u, key, k) == WithKey([x] + t, key, k)
    ensures WithKey([y] + u, key, k) == WithKey([x] + ([y] + t), key, k)
  {
    WithKeySingle(x, key, k);
    WithKeySingle(y, key, k);
    WithKeyAppend([y], u, key, k);
    WithKeyAppend([x], t, key, k);
    WithKeyAppend([y], t, key, k);
    WithKeyAppend([x], [y] + t, key, k);
  }

  /** The sort is in descending key order and stable. */
  lemma {:induction false} SortDescSpec<T, K(!new)>(s: seq<T>, key: T -> K, le: (K, K) -> bool)
    requires TotalOrder(le)
    ensures SortedDesc(SortDesc(s, key, le), key, le)
    ensures forall k :: WithKey(SortDesc(s, key, le), key, k) == WithKey(s, key, k)
  {
    if s != [] {
      var t := SortDesc(s[1..], key, le);
      SortDescSpec(s[1..], key, le);
      InsertSorted(s[0], t, key, le);
      forall k ensures WithKey(SortDesc(s, key, le), key, k) == WithKey(s, key, k) {
        assert le(key(s[0]), key(s[0]));
        InsertWithKey(s[0], t, key, le, k);
        WithKeyAppend([s[0]], t, key, k);
        WithKeyAppend([s[0]], s[1..], key, k);
        assert s == [s[0]] + s[1..];
      }
    }
  }

  /** What `sorted(s, key=key, reverse=True)[:n]` promises: descending order, the kept elements are
      the newest (nothing left out has a larger key than anything kept), and among equal keys the
      kept elements are the first of that key in input order. */
  lemma NewestSpec<T, K(!new)>(s: seq<T>, key: T -> K, le: (K, K) -> bool, n: nat)
    requires TotalOrder(le)
    ensures SortedDesc(Newest(s, key, le, n), key, le)
    ensures forall y, x :: y in multiset(s) - multiset(Newest(s, key, le, n)) && x in Newest(s, key, le, n)
                           ==> le(key(y), key(x))
    ensures forall k :: WithKey(Newest(s, key, le, n), key, k) <= WithKey(s, key, k)
  {
    SortDescSpec(s, key, le);
    SortDescPermutes(s, key, le);
    PrefixSorted(SortDesc(s, key, le), Min(n, |s|), key, le);
    PrefixAboveRest(SortDesc(s, key, le), Min(n, |s|), key, le);
    PrefixWithKey(SortDesc(s, key, le), Min(n, |s|), key);
    assert multiset(SortDesc(s, key, le)) == multiset(s);
  }

  /** A prefix of a sorted sequence is sorted. */
  lemma PrefixSorted<T, K>(t: seq<T>, m: nat, key: T -> K, le: (K, K) -> bool)
    requires m <= |t| && SortedDesc(t, key, le)
    ensures SortedDesc(t[..m], key, le)
  {
    forall i, j | 0 <= i < j < m ensures le(key(t[..m][j]), key(t[..m][i])) {
      assert t[..m][j] == t[j] && t[..m][i] == t[i];
    }
  }

  /** Nothing after a prefix of a sorted sequence has a larger key than anything in it. */
  lemma PrefixAboveRest<T, K>(t: seq<T>, m: nat, key: T -> K, le: (K, K) -> bool)
    requires m <= |t| && SortedDesc(t, key, le)
    ensures forall y, x :: y in multiset(t) - multiset(t[..m]) && x in t[..m] ==> le(key(y), key(x))
  {
    var r := t[..m];
    PrefixRest(t, m);
    forall y, x | y in multiset(t) - multiset(r) && x in r ensures le(key(y), key(x)) {
      var j :| m <= j < |t| && t[j] == y;
      var i :| 0 <= i < m && r[i] == x;
      assert t[i] == x;
    }
  }

  /** What a prefix leaves out is the rest of the sequence. */
  lemma PrefixRest<T>(t: seq<T>, m: nat)
    requires m <= |t|
    ensures forall y :: y in multiset(t) - multiset(t[..m]) ==> exists j :: m <= j < |t| && t[j] == y
  {
    assert t == t[..m] + t[m..];
    assert multiset(t) - multiset(t[..m]) == multiset(t[m..]);
    forall y | y in multiset(t) - multiset(t[..m]) ensures exists j :: m <= j < |t| && t[j] == y {
      assert y in t[m..];
      var j :| 0 <= j < |t[m..]| && t[m..][j] == y;
      assert t[m + j] == y;
    }
  }

  /** Filtering a prefix gives a prefix of the filter. */
  lemma PrefixWithKey<T, K>(t: seq<T>, m: nat, key: T -> K)
    requires m <= |t|
    ensures forall k :: WithKey(t[..m], key, k) <= WithKey(t, key, k)
  {
    forall k ensures WithKey(t[..m], key, k) <= WithKey(t, key, k) {
      assert t == t[..m] + t[m..];
      WithKeyAppend(t[..m], t[m..], key, k);
    }
  }
}
