/** Sequence helpers shared by the list models. */
module Seqs {
  import opened Wrappers

  /** `s.slice(0, n)` for a non-negative `n`. */
  function Take<T>(s: seq<T>, n: nat): (r: seq<T>)
    ensures |r| == Min(n, |s|) && r == s[..|r|]
  {
    if |s| <= n then s else s[..n]
  }

  /** No element occurs twice. */
  predicate NoDup<T(==)>(s: seq<T>) {
    forall i, j :: 0 <= i < j < |s| ==> s[i] != s[j]
  }

  /** `a` is `b` with some elements left out, the rest in their original order. */
  predicate IsSubseq<T(==)>(a: seq<T>, b: seq<T>)
    decreases |b|
  {
    if a == [] then true
    else if b == [] then false
    else if a[0] == b[0] then IsSubseq(a[1..], b[1..])
    else IsSubseq(a, b[1..])
  }

  lemma {:induction false} SubseqMembers<T>(a: seq<T>, b: seq<T>)
    requires IsSubseq(a, b)
    ensures |a| <= |b|
    ensures forall x :: x in a ==> x in b
    decreases |b|
  {
    if a != [] {
      if a[0] == b[0] {
        SubseqMembers(a[1..], b[1..]);
        assert a == [a[0]] + a[1..];
      } else {
        SubseqMembers(a, b[1..]);
      }
    }
  }

  lemma {:induction false} SubseqRefl<T>(a: seq<T>)
    ensures IsSubseq(a, a)
    decreases |a|
  {
    if a != [] { SubseqRefl(a[1..]); }
  }

  /** A prefix of a subsequence is a subsequence. */
  lemma {:induction false} PrefixOfSubseq<T>(a: seq<T>, b: seq<T>, n: nat)
    requires IsSubseq(a, b) && n <= |a|
    ensures IsSubseq(a[..n], b)
    decreases |b|
  {
    if n > 0 {
      if a[0] == b[0] {
        PrefixOfSubseq(a[1..], b[1..], n - 1);
        assert a[..n][1..] == a[1..][..n - 1];
      } else {
        PrefixOfSubseq(a, b[1..], n);
      }
    }
  }

  /** Adding an element in front of the larger sequence keeps a subsequence. */
  lemma {:induction false} SubseqCons<T>(a: seq<T>, c: seq<T>)
    requires c != [] && IsSubseq(a, c[1..])
    ensures IsSubseq(a, c)
    decreases |c|, 0
  {
    if a != [] && a[0] == c[0] {
      SubseqTail(a, c[1..]);
    }
  }

  /** Dropping the first element of the smaller sequence keeps a subsequence. */
  lemma {:induction false} SubseqTail<T>(a: seq<T>, d: seq<T>)
    requires a != [] && IsSubseq(a, d)
    ensures IsSubseq(a[1..], d)
    decreases |d|, 1
  {
    if a[0] == d[0] {
      if a[1..] != [] { SubseqCons(a[1..], d); }
    } else {
      SubseqTail(a, d[1..]);
      if a[1..] != [] { SubseqCons(a[1..], d); }
    }
  }

  /** Appending an element to the larger sequence, or to both, keeps a subsequence. */
  lemma {:induction false} SubseqSnoc<T>(a: seq<T>, b: seq<T>, x: T)
    requires IsSubseq(a, b)
    ensures IsSubseq(a, b + [x])
    ensures IsSubseq(a + [x], b + [x])
    decreases |b|
  {
    if b == [] {
      assert [x][1..] == [];
    } else {
      assert (b + [x])[1..] == b[1..] + [x];
      if a == [] {
        if x != b[0] {
          SubseqSnoc(a, b[1..], x);
        }
      } else {
        assert (a + [x])[1..] == a[1..] + [x];
        if a[0] == b[0] {
          SubseqSnoc(a[1..], b[1..], x);
        } else {
          SubseqSnoc(a, b[1..], x);
        }
      }
    }
  }

  /** Subsequences compose. */
  lemma {:induction false} SubseqTrans<T>(a: seq<T>, b: seq<T>, c: seq<T>)
    requires IsSubseq(a, b) && IsSubseq(b, c)
    ensures IsSubseq(a, c)
    decreases |c|
  {
    if a != [] {
      SubseqMembers(b, c);
      if b[0] == c[0] && a[0] == b[0] {
        SubseqTrans(a[1..], b[1..], c[1..]);
      } else {
        if b[0] == c[0] {
          SubseqTrans(a, b[1..], c[1..]);
        } else {
          SubseqTrans(a, b, c[1..]);
        }
        SubseqCons(a, c);
      }
    }
  }

  /** A subsequence of a duplicate-free sequence is duplicate-free. */
  lemma {:induction false} SubseqNoDup<T>(a: seq<T>, b: seq<T>)
    requires IsSubseq(a, b) && NoDup(b)
    ensures NoDup(a)
    decreases |b|
  {
    if a != [] {
      assert NoDup(b[1..]) by {
        forall i, j | 0 <= i < j < |b| - 1 ensures b[1..][i] != b[1..][j] {
          assert b[1..][i] == b[i + 1] && b[1..][j] == b[j + 1];
        }
      }
      if a[0] == b[0] {
        SubseqNoDup(a[1..], b[1..]);
        SubseqMembers(a[1..], b[1..]);
        forall i, j | 0 <= i < j < |a| ensures a[i] != a[j] {
          if i == 0 {
            assert a[j] == a[1..][j - 1];
            assert a[j] in b[1..];
            var k :| 0 <= k < |b[1..]| && b[1..][k] == a[j];
            assert b[k + 1] == a[j];
          } else {
            assert a[i] == a[1..][i - 1] && a[j] == a[1..][j - 1];
          }
        }
      } else {
        SubseqNoDup(a, b[1..]);
      }
    }
  }
}
