/** Ordering of query results: SQL `ORDER BY` and JavaScript's
    `Array.prototype.sort` with a comparator. The order is a parameter, a
    total preorder (ties allowed), since the database collation and
    `localeCompare` are not part of the model. */
module Ordering {

  /** `le` is total and transitive. */
  ghost predicate TotalPreorder<T(!new)>(le: (T, T) -> bool)
  {
    && (forall a, b :: le(a, b) || le(b, a))
    && (forall a, b, c :: le(a, b) && le(b, c) ==> le(a, c))
  }

  ghost predicate SortedBy<T>(s: seq<T>, le: (T, T) -> bool)
  {
    forall i, j :: 0 <= i < j < |s| ==> le(s[i], s[j])
  }

  /** Puts `x` in front of the first element it does not come after. */
  function InsertBy<T>(x: T, s: seq<T>, le: (T, T) -> bool): (r: seq<T>)
    ensures multiset(r) == multiset(s) + multiset{x} && |r| == |s| + 1
    decreases |s|
  {
    if |s| == 0 || le(x, s[0]) then [x] + s
    else
      var rest := InsertBy(x, s[1..], le);
      assert s == [s[0]] + s[1..];
      [s[0]] + rest
  }

  /** A stable insertion sort: elements the order ties keep their input
      order, as with JavaScript's sort. */
  function SortBy<T>(s: seq<T>, le: (T, T) -> bool): (r: seq<T>)
    ensures multiset(r) == multiset(s) && |r| == |s|
    decreases |s|
  {
    if |s| == 0 then []
    else
      assert s == [s[0]] + s[1..];
      InsertBy(s[0], SortBy(s[1..], le), le)
  }

  lemma {:induction false} InsertBySorted<T(!new)>(x: T, s: seq<T>, le: (T, T) -> bool)
    requires TotalPreorder(le) && SortedBy(s, le)
    ensures SortedBy(InsertBy(x, s, le), le)
    decreases |s|
  {
    if |s| > 0 && !le(x, s[0]) {
      var rest := InsertBy(x, s[1..], le);
      InsertBySorted(x, s[1..], le);
      forall k | 0 <= k < |rest|
        ensures le(s[0], rest[k])
      {
        assert rest[k] in multiset(rest);
        assert rest[k] == x || rest[k] in multiset(s[1..]);
        if rest[k] != x {
          var m :| 0 <= m < |s[1..]| && s[1..][m] == rest[k];
          assert s[1 + m] == rest[k];
        }
      }
    }
  }

  /** The sort orders its input by `le`, keeping every element. */
  lemma {:induction false} SortBySorted<T(!new)>(s: seq<T>, le: (T, T) -> bool)
    requires TotalPreorder(le)
    ensures SortedBy(SortBy(s, le), le)
    ensures multiset(SortBy(s, le)) == multiset(s)
    decreases |s|
  {
    if |s| > 0 {
      SortBySorted(s[1..], le);
      InsertBySorted(s[0], SortBy(s[1..], le), le);
    }
  }

  /** SQL `LIMIT n`: the first `n` rows, or all of them when fewer. */
  function Take<T>(s: seq<T>, n: nat): (r: seq<T>)
    ensures |r| == (if n < |s| then n else |s|)
    ensures r == s[..|r|]
  {
    if n < |s| then s[..n] else s
  }

  /** Every row of a sorted, limited result is a row of the input. */
  lemma SortTakeFromInput<T>(s: seq<T>, le: (T, T) -> bool, n: nat)
    ensures forall k :: 0 <= k < |Take(SortBy(s, le), n)| ==> Take(SortBy(s, le), n)[k] in s
  {
    var sorted := SortBy(s, le);
    forall k | 0 <= k < |Take(sorted, n)|
      ensures Take(sorted, n)[k] in s
    {
      assert Take(sorted, n)[k] == sorted[k];
      assert sorted[k] in multiset(sorted);
    }
  }

  /** A limit on a sorted arrangement of `rows` keeps the first rows: it
      takes no row more often than `rows` has it, and a row it leaves out
      comes after every row it keeps. */
  lemma TakeKeepsTop<T>(s: seq<T>, rows: seq<T>, le: (T, T) -> bool, n: nat)
    requires SortedBy(s, le) && multiset(s) == multiset(rows)
    ensures multiset(Take(s, n)) <= multiset(rows)
    ensures forall x, y :: y in Take(s, n) && multiset(Take(s, n))[x] < multiset(rows)[x] ==> le(y, x)
  {
    var r := Take(s, n);
    var rest := s[|r|..];
    assert s == r + rest;
    assert multiset(s) == multiset(r) + multiset(rest);
    forall x, y | y in r && multiset(r)[x] < multiset(rows)[x]
      ensures le(y, x)
    {
      assert x in multiset(rest);
      var j :| 0 <= j < |rest| && rest[j] == x;
      var i :| 0 <= i < |r| && r[i] == y;
      assert s[i] == y && s[|r| + j] == x;
    }
  }

  /** A limit keeps a sorted result sorted. */
  lemma TakeSorted<T>(s: seq<T>, le: (T, T) -> bool, n: nat)
    requires SortedBy(s, le)
    ensures SortedBy(Take(s, n), le)
  {
  }
}
