/**
 * Stable descending sort by a score key. Java's `List.sort` (and the
 * sequential `Stream.sorted`) is a stable merge sort; with the comparator
 * `Double.compare(b.getScore(), a.getScore())` it orders by descending
 * score and keeps equal scores in their input order.
 */
module Ranking {
  import opened Seqs

  predicate SortedDesc<T>(s: seq<T>, key: T -> real) {
    forall i, j :: 0 <= i < j < |s| ==> key(s[i]) >= key(s[j])
  }

  /** Places `x` after every element whose key is at least its own. */
  function Insert<T>(x: T, s: seq<T>, key: T -> real): seq<T> {
    if s == [] || key(x) > key(s[0]) then [x] + s else [s[0]] + Insert(x, s[1..], key)
  }

  /** Insertion sort that inserts the elements in input order, so ties keep that order. */
  function SortDesc<T(==)>(s: seq<T>, key: T -> real): (r: seq<T>)
    ensures |r| == |s|
    ensures multiset(r) == multiset(s)
    ensures SortedDesc(r, key)
    decreases |s|
  {
    if s == [] then []
    else
      var init := SortDesc(s[..|s| - 1], key);
      InsertProperties(s[|s| - 1], init, key);
      assert s == s[..|s| - 1] + [s[|s| - 1]];
      Insert(s[|s| - 1], init, key)
  }

  lemma {:induction false} InsertProperties<T>(x: T, s: seq<T>, key: T -> real)
    requires SortedDesc(s, key)
    ensures multiset(Insert(x, s, key)) == multiset(s) + multiset{x}
    ensures |Insert(x, s, key)| == |s| + 1
    ensures SortedDesc(Insert(x, s, key), key)
  {
    InsertMultiset(x, s, key);
    InsertSorted(x, s, key);
  }

  lemma {:induction false} InsertMultiset<T>(x: T, s: seq<T>, key: T -> real)
    ensures multiset(Insert(x, s, key)) == multiset(s) + multiset{x}
    ensures |Insert(x, s, key)| == |s| + 1
    decreases |s|
  {
    if s == [] || key(x) > key(s[0]) {
    } else {
      InsertMultiset(x, s[1..], key);
      assert s == [s[0]] + s[1..];
    }
  }

  /** Every element of the insertion result is `x` or an element of `s`. */
  lemma {:induction false} InsertElements<T>(x: T, s: seq<T>, key: T -> real)
    ensures forall i :: 0 <= i < |Insert(x, s, key)| ==> Insert(x, s, key)[i] == x || Insert(x, s, key)[i] in s
    decreases |s|
  {
    if s == [] || key(x) > key(s[0]) {
    } else {
      InsertElements(x, s[1..], key);
      var r := Insert(x, s[1..], key);
      forall i | 0 <= i < |[s[0]] + r|
        ensures ([s[0]] + r)[i] == x || ([s[0]] + r)[i] in s
      {
        if i > 0 {
          assert ([s[0]] + r)[i] == r[i - 1];
        }
      }
    }
  }

  lemma {:induction false} InsertSorted<T>(x: T, s: seq<T>, key: T -> real)
    requires SortedDesc(s, key)
    ensures SortedDesc(Insert(x, s, key), key)
    decreases |s|
  {
    if s == [] || key(x) > key(s[0]) {
      var r := [x] + s;
      forall i, j | 0 <= i < j < |r|
        ensures key(r[i]) >= key(r[j])
      {
        if i == 0 {
          assert r[j] == s[j - 1];
        } else {
          assert r[i] == s[i - 1] && r[j] == s[j - 1];
        }
      }
    } else {
      assert SortedDesc(s[1..], key);
      InsertSorted(x, s[1..], key);
      InsertElements(x, s[1..], key);
      var r := Insert(x, s[1..], key);
      var t := [s[0]] + r;
      forall i, j | 0 <= i < j < |t|
        ensures key(t[i]) >= key(t[j])
      {
        assert t[j] == r[j - 1];
        if i == 0 {
          if r[j - 1] != x {
            var m :| 0 <= m < |s[1..]| && s[1..][m] == r[j - 1];
            assert s[1..][m] == s[m + 1];
          }
        } else {
          assert t[i] == r[i - 1];
        }
      }
    }
  }

  /** The elements whose key equals `v`, in order. */
  function WithKey<T>(s: seq<T>, key: T -> real, v: real): seq<T> {
    if s == [] then []
    else (if key(s[0]) == v then [s[0]] else []) + WithKey(s[1..], key, v)
  }

  lemma WithKeyCons<T>(x: T, s: seq<T>, key: T -> real, v: real)
    ensures WithKey([x] + s, key, v) == (if key(x) == v then [x] else []) + WithKey(s, key, v)
  {
    assert ([x] + s)[1..] == s;
  }

  lemma {:induction false} WithKeyAppend<T>(a: seq<T>, b: seq<T>, key: T -> real, v: real)
    ensures WithKey(a + b, key, v) == WithKey(a, key, v) + WithKey(b, key, v)
    decreases |a|
  {
    if a == [] {
      assert a + b == b;
    } else {
      WithKeyAppend(a[1..], b, key, v);
      assert a + b == [a[0]] + (a[1..] + b);
      WithKeyCons(a[0], a[1..] + b, key, v);
      assert a == [a[0]] + a[1..];
      WithKeyCons(a[0], a[1..], key, v);
    }
  }

  lemma {:induction false} InsertWithKey<T>(x: T, s: seq<T>, key: T -> real, v: real)
    requires SortedDesc(s, key)
    ensures WithKey(Insert(x, s, key), key, v)
         == WithKey(s, key, v) + (if key(x) == v then [x] else [])
    decreases |s|
  {
    if s == [] {
    } else if key(x) > key(s[0]) {
      // every element of s has key <= key(s[0]) < key(x), so none equals v when key(x) == v
      if key(x) == v {
        WithKeyNone(s, key, v);
      }
      WithKeyCons(x, s, key, v);
      WithKeyAppend(s, [x], key, v);
    } else {
      InsertWithKey(x, s[1..], key, v);
      WithKeyCons(s[0], Insert(x, s[1..], key), key, v);
      assert s == [s[0]] + s[1..];
      WithKeyCons(s[0], s[1..], key, v);
    }
  }

  lemma {:induction false} WithKeyNone<T>(s: seq<T>, key: T -> real, v: real)
    requires forall i :: 0 <= i < |s| ==> key(s[i]) < v
    ensures WithKey(s, key, v) == []
    decreases |s|
  {
    if s != [] {
      WithKeyNone(s[1..], key, v);
    }
  }

  /** Stability: for every score value, the elements with that score keep their input order. */
  lemma {:induction false} SortDescStable<T>(s: seq<T>, key: T -> real, v: real)
    ensures WithKey(SortDesc(s, key), key, v) == WithKey(s, key, v)
    decreases |s|
  {
    if s != [] {
      var init := s[..|s| - 1];
      var x := s[|s| - 1];
      SortDescStable(init, key, v);
      InsertWithKey(x, SortDesc(init, key), key, v);
      assert s == init + [x];
      WithKeyAppend(init, [x], key, v);
    }
  }

  /** Sorting a sequence that is already in descending order changes nothing. */
  lemma {:induction false} SortDescOfSorted<T>(s: seq<T>, key: T -> real)
    requires SortedDesc(s, key)
    ensures SortDesc(s, key) == s
    decreases |s|
  {
    if s != [] {
      var init := s[..|s| - 1];
      var x := s[|s| - 1];
      assert SortedDesc(init, key);
      SortDescOfSorted(init, key);
      InsertAtEnd(x, init, key);
      assert init + [x] == s;
    }
  }

  lemma {:induction false} InsertAtEnd<T>(x: T, s: seq<T>, key: T -> real)
    requires forall i :: 0 <= i < |s| ==> key(s[i]) >= key(x)
    ensures Insert(x, s, key) == s + [x]
    decreases |s|
  {
    if s != [] {
      InsertAtEnd(x, s[1..], key);
      assert [s[0]] + (s[1..] + [x]) == s + [x];
    }
  }

  /** A subsequence of a descending sequence is descending. */
  lemma {:induction false} SubseqSortedDesc<T>(a: seq<T>, b: seq<T>, key: T -> real)
    requires IsSubseq(a, b) && SortedDesc(b, key)
    ensures SortedDesc(a, key)
    decreases |b|
  {
    if a != [] {
      assert SortedDesc(b[1..], key);
      if a[0] == b[0] && IsSubseq(a[1..], b[1..]) {
        SubseqSortedDesc(a[1..], b[1..], key);
        SubseqElements(a[1..], b[1..]);
        forall i, j | 0 <= i < j < |a|
          ensures key(a[i]) >= key(a[j])
        {
          assert a[j] == a[1..][j - 1];
          if i == 0 {
            assert a[j] in b[1..];
          } else {
            assert a[i] == a[1..][i - 1];
          }
        }
      } else {
        SubseqSortedDesc(a, b[1..], key);
      }
    }
  }
}
