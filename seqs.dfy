/** Query helpers over stored rows: filtering and newest-first ordering. */
module Seqs {

  /** The rows of `s` that satisfy `p`, in their original order (a queryset `filter`). */
  function Filter<T(!new)>(s: seq<T>, p: T -> bool): (r: seq<T>)
    ensures |r| <= |s|
    ensures forall x :: x in r <==> x in s && p(x)
    decreases |s|
  {
    if |s| == 0 then []
    else (if p(s[0]) then [s[0]] else []) + Filter(s[1..], p)
  }

  /** Filtering by `p` and by its negation `q` splits the rows between the two results. */
  lemma {:induction false} FilterPartition<T(!new)>(s: seq<T>, p: T -> bool, q: T -> bool)
    requires forall x :: q(x) <==> !p(x)
    ensures multiset(Filter(s, p)) + multiset(Filter(s, q)) == multiset(s)
    ensures |Filter(s, p)| + |Filter(s, q)| == |s|
    decreases |s|
  {
    if |s| > 0 {
      FilterPartition(s[1..], p, q);
      assert s == [s[0]] + s[1..];
    }
  }

  /** Keys never increase from left to right: an `ordering = ['-key']` result. */
  predicate NewestFirst<T>(s: seq<T>, key: T -> int) {
    forall i, j :: 0 <= i < j < |s| ==> key(s[i]) >= key(s[j])
  }

  /** Places `x` before the first row whose key is not greater than its own. */
  function InsertNewestFirst<T>(x: T, s: seq<T>, key: T -> int): (r: seq<T>)
    requires NewestFirst(s, key)
    ensures NewestFirst(r, key)
    ensures multiset(r) == multiset{x} + multiset(s)
    ensures |r| == |s| + 1
    decreases |s|
  {
    if |s| == 0 || key(x) >= key(s[0]) then [x] + s
    else
      var rest := InsertNewestFirst(x, s[1..], key);
      assert forall k :: 0 <= k < |rest| ==> key(rest[k]) <= key(s[0]) by {
        forall k | 0 <= k < |rest|
          ensures key(rest[k]) <= key(s[0])
        {
          assert rest[k] in multiset(rest);
          if rest[k] != x {
            assert rest[k] in multiset(s[1..]);
            var m :| 0 <= m < |s[1..]| && s[1..][m] == rest[k];
            assert s[m + 1] == rest[k];
          }
        }
      }
      assert s == [s[0]] + s[1..];
      NewestFirstCons(s[0], rest, key);
      [s[0]] + rest
  }

  /** A row at least as new as every row of a newest-first sequence can go in front. */
  lemma NewestFirstCons<T>(x: T, s: seq<T>, key: T -> int)
    requires NewestFirst(s, key)
    requires forall k :: 0 <= k < |s| ==> key(s[k]) <= key(x)
    ensures NewestFirst([x] + s, key)
  {
    var r := [x] + s;
    forall i, j | 0 <= i < j < |r|
      ensures key(r[i]) >= key(r[j])
    {
      assert r[j] == s[j - 1];
      if i > 0 {
        assert r[i] == s[i - 1];
      }
    }
  }

  /** The rows of `s` ordered by descending key; rows with equal keys keep their order. */
  function SortNewestFirst<T>(s: seq<T>, key: T -> int): (r: seq<T>)
    ensures NewestFirst(r, key)
    ensures multiset(r) == multiset(s)
    ensures |r| == |s|
    decreases |s|
  {
    if |s| == 0 then []
    else
      assert s == [s[0]] + s[1..];
      InsertNewestFirst(s[0], SortNewestFirst(s[1..], key), key)
  }

  /** The head of the newest-first ordering has the largest key of all rows. */
  lemma {:induction false} SortedHeadIsNewest<T>(s: seq<T>, key: T -> int, x: T)
    requires x in s
    ensures |SortNewestFirst(s, key)| > 0
    ensures key(SortNewestFirst(s, key)[0]) >= key(x)
  {
    var r := SortNewestFirst(s, key);
    assert x in multiset(r);
    var k :| 0 <= k < |r| && r[k] == x;
    if k > 0 {
      assert key(r[0]) >= key(r[k]);
    }
  }
}
