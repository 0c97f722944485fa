/**
 * The shapes of the database queries the portal issues: `where` filters,
 * `orderBy` on a column, and `take`.  Rows are kept in creation order, so
 * ordering by creation time newest-first is a reversal.
 */
module Query {

  /** `findMany({ where })`: the rows that satisfy `p`, in their stored order. */
  function Filter<T(!new)>(s: seq<T>, p: T -> bool): (r: seq<T>)
    ensures |r| <= |s|
    ensures forall x :: x in r <==> x in s && p(x)
  {
    if s == [] then []
    else
      assert s == [s[0]] + s[1..];
      (if p(s[0]) then [s[0]] else []) + Filter(s[1..], p)
  }

  /** Filtering keeps rows in the relative order they were stored in. */
  lemma {:induction false} FilterKeepsOrder<T(!new)>(s: seq<T>, p: T -> bool, key: T -> int)
    requires forall i, j :: 0 <= i < j < |s| ==> key(s[i]) < key(s[j])
    ensures forall i, j :: 0 <= i < j < |Filter(s, p)| ==> key(Filter(s, p)[i]) < key(Filter(s, p)[j])
  {
    if s != [] {
      FilterKeepsOrder(s[1..], p, key);
      FilterAbove(s[1..], p, key, key(s[0]));
      var rest := Filter(s[1..], p);
      if p(s[0]) {
        assert Filter(s, p) == [s[0]] + rest;
      } else {
        assert Filter(s, p) == rest;
      }
    }
  }

  lemma {:induction false} FilterAbove<T(!new)>(s: seq<T>, p: T -> bool, key: T -> int, bound: int)
    requires forall i :: 0 <= i < |s| ==> bound < key(s[i])
    ensures forall j :: 0 <= j < |Filter(s, p)| ==> bound < key(Filter(s, p)[j])
  {
    if s != [] {
      FilterAbove(s[1..], p, key, bound);
      var rest := Filter(s[1..], p);
      if p(s[0]) {
        assert Filter(s, p) == [s[0]] + rest;
      } else {
        assert Filter(s, p) == rest;
      }
    }
  }

  /** Newest-first order of rows stored oldest-first. */
  function Reverse<T(!new)>(s: seq<T>): (r: seq<T>)
    ensures |r| == |s|
    ensures forall i :: 0 <= i < |s| ==> r[i] == s[|s| - 1 - i]
    ensures multiset(r) == multiset(s)
    ensures forall x :: x in r <==> x in s
  {
    if s == [] then [] else
      assert s == [s[0]] + s[1..];
      Reverse(s[1..]) + [s[0]]
  }

  /** `take: n` */
  function Take<T>(s: seq<T>, n: nat): (r: seq<T>)
    ensures |r| == if |s| < n then |s| else n
    ensures forall i :: 0 <= i < |r| ==> r[i] == s[i]
  {
    if |s| <= n then s else s[..n]
  }

  /** `orderBy: { key: 'asc' }` over rows already in that order. */
  predicate Ascending<T>(s: seq<T>, key: T -> int) {
    forall i, j :: 0 <= i < j < |s| ==> key(s[i]) <= key(s[j])
  }

  function Insert<T(!new)>(x: T, s: seq<T>, key: T -> int): (r: seq<T>)
    ensures multiset(r) == multiset(s) + multiset{x}
    ensures |r| == |s| + 1 && (r[0] == x || (|s| > 0 && r[0] == s[0]))
  {
    if s == [] || key(x) <= key(s[0]) then [x] + s
    else
      assert s == [s[0]] + s[1..];
      [s[0]] + Insert(x, s[1..], key)
  }

  lemma {:induction false} InsertAscending<T(!new)>(x: T, s: seq<T>, key: T -> int)
    requires Ascending(s, key)
    ensures Ascending(Insert(x, s, key), key)
  {
    if s != [] && key(x) > key(s[0]) {
      var rest := Insert(x, s[1..], key);
      InsertAscending(x, s[1..], key);
      assert key(s[0]) <= key(rest[0]);
      assert forall j :: 0 <= j < |rest| ==> key(rest[0]) <= key(rest[j]);
      assert Insert(x, s, key) == [s[0]] + rest;
    }
  }

  /** `orderBy: { key: 'asc' }`: a permutation of the rows, ascending by `key`. */
  function SortBy<T(!new)>(s: seq<T>, key: T -> int): (r: seq<T>)
    ensures multiset(r) == multiset(s)
    ensures Ascending(r, key)
  {
    if s == [] then []
    else
      assert s == [s[0]] + s[1..];
      var t := SortBy(s[1..], key);
      InsertAscending(s[0], t, key);
      Insert(s[0], t, key)
  }

  /** A filter every row passes keeps the whole table. */
  lemma {:induction false} FilterAll<T(!new)>(s: seq<T>, p: T -> bool)
    requires forall i :: 0 <= i < |s| ==> p(s[i])
    ensures Filter(s, p) == s
  {
    if s != [] {
      FilterAll(s[1..], p);
      assert s == [s[0]] + s[1..];
    }
  }

  /** A filter no row passes yields nothing. */
  lemma {:induction false} FilterNone<T(!new)>(s: seq<T>, p: T -> bool)
    requires forall i :: 0 <= i < |s| ==> !p(s[i])
    ensures Filter(s, p) == []
  {
    if s != [] {
      FilterNone(s[1..], p);
    }
  }
}
