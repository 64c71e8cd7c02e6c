/**
 * A stable sort by an integer key, standing for Python's `sorted(xs, key=...)`
 * (which is guaranteed stable): elements with equal keys keep their relative
 * order.
 */
module Sorting {

  predicate SortedBy<T>(s: seq<T>, key: T -> int)
  {
    forall i, j :: 0 <= i < j < |s| ==> key(s[i]) <= key(s[j])
  }

  /** The elements of `s` whose key is `k`, in their order in `s`. */
  function WithKey<T>(s: seq<T>, key: T -> int, k: int): (r: seq<T>)
    ensures |r| <= |s|
  {
    if s == [] then []
    else (if key(s[0]) == k then [s[0]] else []) + WithKey(s[1..], key, k)
  }

  /** Puts `x` in front of the first element of `s` whose key is not smaller. */
  function Insert<T>(x: T, s: seq<T>, key: T -> int): (r: seq<T>)
    ensures |r| == |s| + 1
  {
    if s == [] || key(x) <= key(s[0]) then [x] + s
    else
      assert s == [s[0]] + s[1..];
      [s[0]] + Insert(x, s[1..], key)
  }

  function SortBy<T>(s: seq<T>, key: T -> int): (r: seq<T>)
    ensures |r| == |s|
  {
    if s == [] then []
    else
      assert s == [s[0]] + s[1..];
      Insert(s[0], SortBy(s[1..], key), key)
  }

  lemma {:induction false} InsertPermutes<T>(x: T, s: seq<T>, key: T -> int)
    ensures multiset(Insert(x, s, key)) == multiset(s) + multiset{x}
  {
    if s != [] && key(x) > key(s[0]) {
      InsertPermutes(x, s[1..], key);
      assert s == [s[0]] + s[1..];
    }
  }

  /** The result is a permutation of the input. */
  lemma {:induction false} SortByPermutes<T>(s: seq<T>, key: T -> int)
    ensures multiset(SortBy(s, key)) == multiset(s)
  {
    if s != [] {
      SortByPermutes(s[1..], key);
      InsertPermutes(s[0], SortBy(s[1..], key), key);
      assert s == [s[0]] + s[1..];
    }
  }

  lemma {:induction false} InsertSorted<T>(x: T, s: seq<T>, key: T -> int)
    requires SortedBy(s, key)
    ensures SortedBy(Insert(x, s, key), key)
    ensures Insert(x, s, key) != [] && (s != [] ==> key(Insert(x, s, key)[0]) == if key(x) <= key(s[0]) then key(x) else key(s[0]))
  {
    if s != [] && key(x) > key(s[0]) {
      InsertSorted(x, s[1..], key);
    }
  }

  /** The result is ordered by key. */
  lemma {:induction false} SortBySorted<T>(s: seq<T>, key: T -> int)
    ensures SortedBy(SortBy(s, key), key)
  {
    if s != [] {
      SortBySorted(s[1..], key);
      InsertSorted(s[0], SortBy(s[1..], key), key);
    }
  }

  lemma {:induction false} InsertWithKey<T>(x: T, s: seq<T>, key: T -> int, k: int)
    requires SortedBy(s, key)
    ensures WithKey(Insert(x, s, key), key, k) == (if key(x) == k then [x] else []) + WithKey(s, key, k)
  {
    var r := Insert(x, s, key);
    if s != [] && key(x) > key(s[0]) {
      InsertWithKey(x, s[1..], key, k);
      assert r == [s[0]] + Insert(x, s[1..], key);
      assert r[1..] == Insert(x, s[1..], key);
      assert WithKey(r, key, k) == (if key(s[0]) == k then [s[0]] else []) + WithKey(Insert(x, s[1..], key), key, k);
      assert WithKey(s, key, k) == (if key(s[0]) == k then [s[0]] else []) + WithKey(s[1..], key, k);
    } else {
      assert r == [x] + s;
      assert r[1..] == s;
    }
  }

  /** Stability: for every key, the elements with that key come out in input order. */
  lemma {:induction false} SortByStable<T>(s: seq<T>, key: T -> int, k: int)
    ensures WithKey(SortBy(s, key), key, k) == WithKey(s, key, k)
  {
    if s != [] {
      SortByStable(s[1..], key, k);
      SortBySorted(s[1..], key);
      InsertWithKey(s[0], SortBy(s[1..], key), key, k);
    }
  }

  /** Sorting an already ordered sequence changes nothing, so sorting twice is sorting once. */
  lemma {:induction false} SortBySortedInput<T>(s: seq<T>, key: T -> int)
    requires SortedBy(s, key)
    ensures SortBy(s, key) == s
  {
    if s != [] {
      assert SortedBy(s[1..], key);
      SortBySortedInput(s[1..], key);
    }
  }

  /** No two elements of `s` share a key. */
  predicate DistinctKeys<T>(s: seq<T>, key: T -> int)
  {
    forall i, j :: 0 <= i < j < |s| ==> key(s[i]) != key(s[j])
  }

  lemma {:induction false} SortByMembers<T>(s: seq<T>, key: T -> int, x: T)
    ensures x in SortBy(s, key) <==> x in s
  {
    SortByPermutes(s, key);
    assert x in SortBy(s, key) <==> x in multiset(SortBy(s, key));
    assert x in s <==> x in multiset(s);
  }

  lemma DistinctKeysTail<T>(s: seq<T>, key: T -> int)
    requires s != [] && DistinctKeys(s, key)
    ensures DistinctKeys(s[1..], key)
  {
    forall i, j | 0 <= i < j < |s[1..]| ensures key(s[1..][i]) != key(s[1..][j]) {
      assert s[1..][i] == s[i + 1] && s[1..][j] == s[j + 1];
    }
  }

  lemma DistinctKeysCons<T>(x: T, s: seq<T>, key: T -> int)
    requires DistinctKeys(s, key)
    requires forall y :: y in s ==> key(y) != key(x)
    ensures DistinctKeys([x] + s, key)
  {
    var r := [x] + s;
    forall i, j | 0 <= i < j < |r| ensures key(r[i]) != key(r[j]) {
      assert r[j] == s[j - 1];
      if i > 0 {
        assert r[i] == s[i - 1];
      }
    }
  }

  lemma {:induction false} InsertDistinctKeys<T>(x: T, s: seq<T>, key: T -> int)
    requires DistinctKeys(s, key)
    requires forall y :: y in s ==> key(y) != key(x)
    ensures DistinctKeys(Insert(x, s, key), key)
  {
    if s == [] || key(x) <= key(s[0]) {
      DistinctKeysCons(x, s, key);
    } else {
      var rest := Insert(x, s[1..], key);
      DistinctKeysTail(s, key);
      InsertDistinctKeys(x, s[1..], key);
      InsertPermutes(x, s[1..], key);
      forall y | y in rest ensures key(y) != key(s[0]) {
        assert y in multiset(rest);
        if y != x {
          assert y in multiset(s[1..]);
          DistinctKeysTailApart(s, key, y);
        }
      }
      DistinctKeysCons(s[0], rest, key);
    }
  }

  lemma DistinctKeysTailApart<T>(s: seq<T>, key: T -> int, y: T)
    requires s != [] && DistinctKeys(s, key) && y in s[1..]
    ensures key(y) != key(s[0])
  {
    var m :| 0 <= m < |s[1..]| && s[1..][m] == y;
    assert s[m + 1] == y;
  }

  /** Sorting keeps keys apart: if no two elements of `s` share a key, none of the result do. */
  lemma {:induction false} SortByDistinctKeys<T>(s: seq<T>, key: T -> int)
    requires DistinctKeys(s, key)
    ensures DistinctKeys(SortBy(s, key), key)
  {
    if s != [] {
      DistinctKeysTail(s, key);
      SortByDistinctKeys(s[1..], key);
      forall y | y in SortBy(s[1..], key) ensures key(y) != key(s[0]) {
        SortByMembers(s[1..], key, y);
        DistinctKeysTailApart(s, key, y);
      }
      InsertDistinctKeys(s[0], SortBy(s[1..], key), key);
    }
  }

  /** Two ordered arrangements of the same elements start with the same element when no two elements of the first share a key. */
  lemma SortedHeads<T>(x: seq<T>, y: seq<T>, key: T -> int)
    requires SortedBy(x, key) && SortedBy(y, key) && DistinctKeys(x, key)
    requires multiset(x) == multiset(y) && x != []
    ensures y != [] && x[0] == y[0]
  {
    assert |y| == |multiset(y)| == |multiset(x)| == |x|;
    assert y[0] in multiset(x) && x[0] in multiset(y);
    var m :| 0 <= m < |x| && x[m] == y[0];
    var n :| 0 <= n < |y| && y[n] == x[0];
    assert key(x[0]) <= key(x[m]) && key(y[0]) <= key(y[n]);
  }

  lemma TailMultiset<T>(x: seq<T>)
    requires x != []
    ensures multiset(x[1..]) == multiset(x) - multiset{x[0]}
  {
    assert x == [x[0]] + x[1..];
  }

  lemma SortedTail<T>(s: seq<T>, key: T -> int)
    requires s != [] && SortedBy(s, key)
    ensures SortedBy(s[1..], key)
  {
    forall i, j | 0 <= i < j < |s[1..]| ensures key(s[1..][i]) <= key(s[1..][j]) {
      assert s[1..][i] == s[i + 1] && s[1..][j] == s[j + 1];
    }
  }

  /** Two ordered arrangements of the same elements with distinct keys share their head, and their tails are such arrangements again. */
  lemma SortedTails<T>(x: seq<T>, y: seq<T>, key: T -> int)
    requires SortedBy(x, key) && SortedBy(y, key) && DistinctKeys(x, key)
    requires multiset(x) == multiset(y) && x != []
    ensures y != [] && x[0] == y[0]
    ensures SortedBy(x[1..], key) && SortedBy(y[1..], key) && DistinctKeys(x[1..], key)
    ensures multiset(x[1..]) == multiset(y[1..])
  {
    SortedHeads(x, y, key);
    TailMultiset(x);
    TailMultiset(y);
    SortedTail(x, key);
    SortedTail(y, key);
    DistinctKeysTail(x, key);
  }

  /** Two ordered arrangements of the same elements are equal when no two elements of the first share a key. */
  lemma {:induction false} SortedUnique<T>(x: seq<T>, y: seq<T>, key: T -> int)
    requires SortedBy(x, key) && SortedBy(y, key) && DistinctKeys(x, key)
    requires multiset(x) == multiset(y)
    ensures x == y
  {
    if x == [] {
      assert |y| == |multiset(y)| == 0;
    } else {
      SortedTails(x, y, key);
      SortedUnique(x[1..], y[1..], key);
      assert x == [x[0]] + x[1..];
      assert y == [y[0]] + y[1..];
    }
  }

  /**
   * Order independence: when no two elements share a key, sorting any
   * rearrangement of the same elements gives the same result.
   */
  lemma SortByReordered<T>(a: seq<T>, b: seq<T>, key: T -> int)
    requires multiset(a) == multiset(b) && DistinctKeys(a, key)
    ensures SortBy(a, key) == SortBy(b, key)
  {
    SortBySorted(a, key);
    SortBySorted(b, key);
    SortByPermutes(a, key);
    SortByPermutes(b, key);
    SortByDistinctKeys(a, key);
    SortedUnique(SortBy(a, key), SortBy(b, key), key);
  }

  lemma SortByIdempotent<T>(s: seq<T>, key: T -> int)
    ensures SortBy(SortBy(s, key), key) == SortBy(s, key)
  {
    SortBySorted(s, key);
    SortBySortedInput(SortBy(s, key), key);
  }
}
