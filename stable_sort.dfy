/**
 * `Array.prototype.sort` with a comparator, which is a stable sort. Every
 * comparator in the pages orders by a key: a pair of integers compared
 * lexicographically, ascending. A descending field is keyed by its negation;
 * a value that sorts last (a missing number read as `Infinity`) gets a larger
 * first component.
 */
module StableSort {
  import opened Seqs

  type Key = (int, int)

  predicate KeyLe(a: Key, b: Key) {
    a.0 < b.0 || (a.0 == b.0 && a.1 <= b.1)
  }

  /** Put `x` before the first element whose key is not smaller. */
  function Insert<T>(x: T, s: seq<T>, key: T -> Key): (r: seq<T>)
    ensures |r| == |s| + 1
    ensures multiset(r) == multiset{x} + multiset(s)
  {
    if s == [] || KeyLe(key(x), key(s[0])) then [x] + s
    else
      var rest := Insert(x, s[1..], key);
      assert s == [s[0]] + s[1..];
      [s[0]] + rest
  }

  /** Insertion sort: the model of a stable sort by `key`. */
  function SortBy<T>(s: seq<T>, key: T -> Key): (r: seq<T>)
    ensures |r| == |s|
  {
    if s == [] then [] else Insert(s[0], SortBy(s[1..], key), key)
  }

  predicate SortedBy<T>(s: seq<T>, key: T -> Key) {
    forall i, j :: 0 <= i < j < |s| ==> KeyLe(key(s[i]), key(s[j]))
  }

  /** The elements whose key is `k`, in order. */
  function WithKey<T>(s: seq<T>, k: Key, key: T -> Key): seq<T> {
    if s == [] then []
    else if key(s[0]) == k then [s[0]] + WithKey(s[1..], k, key)
    else WithKey(s[1..], k, key)
  }

  lemma {:induction false} InsertSorted<T>(x: T, s: seq<T>, key: T -> Key)
    requires SortedBy(s, key)
    ensures SortedBy(Insert(x, s, key), key)
    decreases |s|
  {
    if s == [] || KeyLe(key(x), key(s[0])) {
    } else {
      var rest := Insert(x, s[1..], key);
      assert SortedBy(s[1..], key) by {
        forall i, j | 0 <= i < j < |s| - 1 ensures KeyLe(key(s[1..][i]), key(s[1..][j])) {
          assert s[1..][i] == s[i + 1] && s[1..][j] == s[j + 1];
        }
      }
      InsertSorted(x, s[1..], key);
      var r := [s[0]] + rest;
      forall j | 0 < j < |r| ensures KeyLe(key(s[0]), key(r[j])) {
        assert r[j] in multiset(rest);
        assert r[j] == x || r[j] in multiset(s[1..]);
        if r[j] != x {
          assert r[j] in s[1..];
          var k :| 0 <= k < |s[1..]| && s[1..][k] == r[j];
          assert s[k + 1] == r[j];
        }
      }
      forall i, j | 0 <= i < j < |r| ensures KeyLe(key(r[i]), key(r[j])) {
        if i > 0 { assert r[i] == rest[i - 1] && r[j] == rest[j - 1]; }
      }
    }
  }

  /** The sorted copy is ordered by key and holds exactly the input's elements. */
  lemma {:induction false} SortBySortedPerm<T>(s: seq<T>, key: T -> Key)
    ensures SortedBy(SortBy(s, key), key)
    ensures multiset(SortBy(s, key)) == multiset(s)
  {
    if s != [] {
      SortBySortedPerm(s[1..], key);
      InsertSorted(s[0], SortBy(s[1..], key), key);
      assert s == [s[0]] + s[1..];
    }
  }

  lemma {:induction false} InsertWithKey<T>(x: T, s: seq<T>, k: Key, key: T -> Key)
    requires SortedBy(s, key)
    ensures WithKey(Insert(x, s, key), k, key) ==
      if key(x) == k then [x] + WithKey(s, k, key) else WithKey(s, k, key)
    decreases |s|
  {
    if s == [] || KeyLe(key(x), key(s[0])) {
    } else {
      assert SortedBy(s[1..], key) by {
        forall i, j | 0 <= i < j < |s| - 1 ensures KeyLe(key(s[1..][i]), key(s[1..][j])) {
          assert s[1..][i] == s[i + 1] && s[1..][j] == s[j + 1];
        }
      }
      InsertWithKey(x, s[1..], k, key);
      // s[0] sorts strictly before x, so it cannot share x's key
      assert key(s[0]) != key(x);
    }
  }

  /** Stability: the elements that share a key keep their input order. */
  lemma {:induction false} SortByStable<T>(s: seq<T>, k: Key, key: T -> Key)
    ensures WithKey(SortBy(s, key), k, key) == WithKey(s, k, key)
  {
    if s != [] {
      SortByStable(s[1..], k, key);
      SortBySortedPerm(s[1..], key);
      InsertWithKey(s[0], SortBy(s[1..], key), k, key);
    }
  }

  /**
   * `.sort(cmp).slice(0, k)`: at most `k` elements, in key order, taken from
   * the input, and no element left out sorts before one that was kept.
   */
  lemma TopK<T>(s: seq<T>, key: T -> Key, k: nat)
    ensures var r := Take(SortBy(s, key), k);
      && |r| <= k
      && SortedBy(r, key)
      && multiset(r) <= multiset(s)
      && forall x, i :: x in multiset(s) - multiset(r) && 0 <= i < |r| ==> KeyLe(key(r[i]), key(x))
  {
    var t := SortBy(s, key);
    var r := Take(t, k);
    SortBySortedPerm(s, key);
    PrefixSorted(t, |r|, key);
    assert multiset(r) <= multiset(t) by {
      assert t == r + t[|r|..];
    }
    forall x, i | x in multiset(s) - multiset(r) && 0 <= i < |r| ensures KeyLe(key(r[i]), key(x)) {
      var j := PastPrefix(t, |r|, x);
      assert r[i] == t[i];
    }
  }

  /** A prefix of a sorted sequence is sorted. */
  lemma PrefixSorted<T>(t: seq<T>, n: nat, key: T -> Key)
    requires SortedBy(t, key) && n <= |t|
    ensures SortedBy(t[..n], key)
  {
    forall a, b | 0 <= a < b < n ensures KeyLe(key(t[..n][a]), key(t[..n][b])) {
      assert t[..n][a] == t[a] && t[..n][b] == t[b];
    }
  }

  /** An element of `t` beyond what its first `n` hold sits at a position at or after `n`. */
  lemma PastPrefix<T>(t: seq<T>, n: nat, x: T) returns (j: nat)
    requires n <= |t| && x in multiset(t) - multiset(t[..n])
    ensures n <= j < |t| && t[j] == x
  {
    assert t == t[..n] + t[n..];
    assert multiset(t) == multiset(t[..n]) + multiset(t[n..]);
    assert x in multiset(t[n..]);
    assert x in t[n..];
    var m :| 0 <= m < |t| - n && t[n..][m] == x;
    j := n + m;
  }

  /** The elements of a prefix that share a key are a prefix of those of the whole. */
  lemma {:induction false} WithKeyPrefix<T>(s: seq<T>, n: nat, k: Key, key: T -> Key)
    requires n <= |s|
    ensures WithKey(s[..n], k, key) <= WithKey(s, k, key)
  {
    if n > 0 {
      assert s[..n][1..] == s[1..][..n - 1];
      WithKeyPrefix(s[1..], n - 1, k, key);
    }
  }
}
