/** Order and membership facts about sequences used by the selectors. */
module Seqs {

  /** `a` is obtained from `b` by deleting elements, keeping the order of the rest. */
  predicate IsSubseq<T(==)>(a: seq<T>, b: seq<T>)
    decreases |b|
  {
    if a == [] then true
    else if b == [] then false
    else (a[0] == b[0] && IsSubseq(a[1..], b[1..])) || IsSubseq(a, b[1..])
  }

  /** No element occurs twice. */
  predicate NoDup<T(==)>(s: seq<T>) {
    forall i, j :: 0 <= i < j < |s| ==> s[i] != s[j]
  }

  /** The first `n` elements, or all of them when there are fewer (Java `subList(0, min(n, size))`). */
  function Take<T>(s: seq<T>, n: nat): (r: seq<T>)
    ensures |r| == if |s| <= n then |s| else n
    ensures r == s[..|r|]
  {
    if |s| <= n then s else s[..n]
  }

  lemma {:induction false} TakeCons<T>(x: T, s: seq<T>, n: nat)
    requires n >= 1
    ensures Take([x] + s, n) == [x] + Take(s, n - 1)
  {
    if |s| + 1 > n {
      assert ([x] + s)[..n] == [x] + s[..n - 1];
    }
  }

  lemma {:induction false} SubseqElements<T>(a: seq<T>, b: seq<T>)
    requires IsSubseq(a, b)
    ensures forall x :: x in a ==> x in b
    decreases |b|
  {
    if a != [] {
      if a[0] == b[0] && IsSubseq(a[1..], b[1..]) {
        SubseqElements(a[1..], b[1..]);
        assert forall x :: x in a ==> x == a[0] || x in a[1..];
      } else {
        SubseqElements(a, b[1..]);
      }
    }
  }

  lemma {:induction false} SubseqRefl<T>(s: seq<T>)
    ensures IsSubseq(s, s)
    decreases |s|
  {
    if s != [] {
      SubseqRefl(s[1..]);
    }
  }

  lemma {:induction false} SubseqEmpty<T>(b: seq<T>)
    ensures IsSubseq([], b)
  {
  }

  lemma {:induction false} SubseqTrans<T>(a: seq<T>, b: seq<T>, c: seq<T>)
    requires IsSubseq(a, b) && IsSubseq(b, c)
    ensures IsSubseq(a, c)
    decreases |c|, |b|
  {
    if a == [] {
    } else if c == [] {
    } else if b[0] == c[0] && IsSubseq(b[1..], c[1..]) {
      if a[0] == b[0] && IsSubseq(a[1..], b[1..]) {
        SubseqTrans(a[1..], b[1..], c[1..]);
      } else {
        SubseqTrans(a, b[1..], c[1..]);
      }
    } else {
      SubseqTrans(a, b, c[1..]);
    }
  }

  /** A prefix of `b` is a subsequence of it. */
  lemma {:induction false} PrefixSubseq<T>(b: seq<T>, n: nat)
    requires n <= |b|
    ensures IsSubseq(b[..n], b)
    decreases |b|
  {
    if n == 0 {
    } else {
      PrefixSubseq(b[1..], n - 1);
      assert b[..n][1..] == b[1..][..n - 1];
    }
  }

  /** Deleting one element leaves a subsequence. */
  lemma {:induction false} DeleteSubseq<T>(b: seq<T>, k: nat)
    requires k < |b|
    ensures IsSubseq(b[..k] + b[k + 1..], b)
    decreases |b|
  {
    if k == 0 {
      assert b[..0] + b[1..] == b[1..];
      SubseqRefl(b[1..]);
    } else {
      DeleteSubseq(b[1..], k - 1);
      var d := b[..k] + b[k + 1..];
      assert d[0] == b[0];
      assert d[1..] == b[1..][..k - 1] + b[1..][k..];
    }
  }

  lemma {:induction false} SubseqNoDup<T>(a: seq<T>, b: seq<T>)
    requires IsSubseq(a, b) && NoDup(b)
    ensures NoDup(a)
    decreases |b|
  {
    if a != [] {
      assert NoDup(b[1..]);
      if a[0] == b[0] && IsSubseq(a[1..], b[1..]) {
        SubseqNoDup(a[1..], b[1..]);
        SubseqElements(a[1..], b[1..]);
        assert b[0] !in b[1..];
        forall i, j | 0 <= i < j < |a|
          ensures a[i] != a[j]
        {
          if i == 0 {
            assert a[j] == a[1..][j - 1];
          } else {
            assert a[i] == a[1..][i - 1] && a[j] == a[1..][j - 1];
          }
        }
      } else {
        SubseqNoDup(a, b[1..]);
      }
    }
  }

  /** Without duplicates, every element occurs once. */
  lemma {:induction false} MultisetNoDup<T>(s: seq<T>)
    requires NoDup(s)
    ensures forall x :: multiset(s)[x] <= 1
    decreases |s|
  {
    if s != [] {
      assert s == [s[0]] + s[1..];
      assert NoDup(s[1..]);
      MultisetNoDup(s[1..]);
      assert s[0] !in s[1..];
    }
  }

  /** A sequence in which every element occurs at most once has no duplicates. */
  lemma NoDupMultiset<T>(s: seq<T>)
    requires forall x :: multiset(s)[x] <= 1
    ensures NoDup(s)
  {
    forall i, j | 0 <= i < j < |s| ensures s[i] != s[j] {
      assert s == s[..j] + s[j..];
      assert multiset(s)[s[j]] == multiset(s[..j])[s[j]] + multiset(s[j..])[s[j]];
      assert s[j] in multiset(s[j..]);
      assert s[i] in s[..j];
    }
  }
}
