/**
 * The pieces of a SQL `SELECT ... WHERE ... ORDER BY key DESC` that the
 * repositories build: a filter and a stable sort in descending key order.
 */
module Ordering {

  /** The rows that satisfy `p`, in their original order (a WHERE clause). */
  function Filter<T>(s: seq<T>, p: T -> bool): (r: seq<T>)
    ensures |r| <= |s|
    ensures forall k | 0 <= k < |r| :: p(r[k])
    ensures forall x | x in r :: x in s
    ensures forall x | x in s && p(x) :: x in r
  {
    if s == [] then []
    else if p(s[0]) then [s[0]] + Filter(s[1..], p)
    else Filter(s[1..], p)
  }

  /** Keys never increase from left to right. */
  predicate SortedDesc<T>(s: seq<T>, key: T -> int)
  {
    forall i, j | 0 <= i < j < |s| :: key(s[i]) >= key(s[j])
  }

  /** Every key in `s` is at most `bound`. */
  predicate KeysAtMost<T>(s: seq<T>, key: T -> int, bound: int)
  {
    forall k | 0 <= k < |s| :: key(s[k]) <= bound
  }

  /**
   * Places `x` in front of the first element whose key is not larger, so
   * that among equal keys the earlier-inserted element comes first.
   */
  function Insert<T>(x: T, s: seq<T>, key: T -> int): (r: seq<T>)
    requires SortedDesc(s, key)
    ensures SortedDesc(r, key)
    ensures forall b | KeysAtMost(s, key, b) && key(x) <= b :: KeysAtMost(r, key, b)
  {
    if s == [] || key(s[0]) <= key(x) then
      [x] + s
    else
      var t := Insert(x, s[1..], key);
      assert KeysAtMost(s[1..], key, key(s[0]));
      assert s == [s[0]] + s[1..];
      assert forall b | KeysAtMost(s, key, b) :: KeysAtMost(s[1..], key, b);
      ConsSorted(s[0], t, key);
      [s[0]] + t
  }

  /** Inserting adds exactly `x`. */
  lemma {:induction false} InsertPermutes<T>(x: T, s: seq<T>, key: T -> int)
    requires SortedDesc(s, key)
    ensures multiset(Insert(x, s, key)) == multiset(s) + multiset{x}
    ensures |Insert(x, s, key)| == |s| + 1
  {
    if s != [] && key(s[0]) > key(x) {
      assert SortedDesc(s[1..], key);
      InsertPermutes(x, s[1..], key);
      assert s == [s[0]] + s[1..];
    }
  }

  /** A head no smaller than every key of a sorted tail keeps it sorted. */
  lemma ConsSorted<T>(h: T, t: seq<T>, key: T -> int)
    requires SortedDesc(t, key) && KeysAtMost(t, key, key(h))
    ensures SortedDesc([h] + t, key)
    ensures forall b | KeysAtMost(t, key, b) && key(h) <= b :: KeysAtMost([h] + t, key, b)
  {
  }

  /** Insertion sort, descending by `key`, stable. */
  function SortDesc<T>(s: seq<T>, key: T -> int): (r: seq<T>)
    ensures SortedDesc(r, key)
    ensures multiset(r) == multiset(s)
    ensures |r| == |s|
  {
    if s == [] then []
    else
      assert s == [s[0]] + s[1..];
      InsertPermutes(s[0], SortDesc(s[1..], key), key);
      Insert(s[0], SortDesc(s[1..], key), key)
  }

  /** Sorting keeps exactly the same elements. */
  lemma SortDescMembers<T>(s: seq<T>, key: T -> int, x: T)
    ensures x in SortDesc(s, key) <==> x in s
  {
    assert x in SortDesc(s, key) <==> x in multiset(SortDesc(s, key));
    assert x in s <==> x in multiset(s);
  }

  /** A sorted selection holds exactly the elements that satisfy the condition. */
  lemma SortedSelectionMembers<T>(s: seq<T>, key: T -> int, p: T -> bool)
    ensures forall x | x in SortDesc(Filter(s, p), key) :: x in s && p(x)
    ensures forall x | x in s && p(x) :: x in SortDesc(Filter(s, p), key)
  {
    forall x | x in SortDesc(Filter(s, p), key) ensures x in s && p(x) {
      SortDescMembers(Filter(s, p), key, x);
      var k :| 0 <= k < |Filter(s, p)| && Filter(s, p)[k] == x;
    }
    forall x | x in s && p(x) ensures x in SortDesc(Filter(s, p), key) {
      SortDescMembers(Filter(s, p), key, x);
    }
  }

  /** Filtering a cons cell looks at its head once. */
  lemma FilterCons<T>(x: T, s: seq<T>, p: T -> bool)
    ensures Filter([x] + s, p) == if p(x) then [x] + Filter(s, p) else Filter(s, p)
  {
    assert ([x] + s)[1..] == s;
  }

  /** Filtering keeps any upper bound on the keys. */
  lemma {:induction false} FilterKeepsBound<T>(s: seq<T>, p: T -> bool, key: T -> int, b: int)
    requires KeysAtMost(s, key, b)
    ensures KeysAtMost(Filter(s, p), key, b)
  {
    if s != [] {
      assert KeysAtMost(s[1..], key, b);
      FilterKeepsBound(s[1..], p, key, b);
    }
  }

  /** Filtering a sorted sequence keeps it sorted. */
  lemma {:induction false} FilterKeepsSorted<T>(s: seq<T>, p: T -> bool, key: T -> int)
    requires SortedDesc(s, key)
    ensures SortedDesc(Filter(s, p), key)
  {
    if s != [] {
      assert SortedDesc(s[1..], key);
      assert KeysAtMost(s[1..], key, key(s[0]));
      FilterKeepsSorted(s[1..], p, key);
      FilterKeepsBound(s[1..], p, key, key(s[0]));
    }
  }

  /** Inserting and then filtering is filtering and then inserting (when `x` passes). */
  lemma {:induction false} FilterInsert<T>(x: T, s: seq<T>, key: T -> int, p: T -> bool)
    requires SortedDesc(s, key)
    ensures SortedDesc(Filter(s, p), key)
    ensures Filter(Insert(x, s, key), p)
         == if p(x) then Insert(x, Filter(s, p), key) else Filter(s, p)
    decreases |s|, 1
  {
    FilterKeepsSorted(s, p, key);
    if s == [] {
    } else if key(s[0]) <= key(x) {
      FilterFront(x, s, key, p);
    } else {
      FilterBehind(x, s, key, p);
    }
  }

  /** FilterInsert when `x` goes to the front. */
  lemma FilterFront<T>(x: T, s: seq<T>, key: T -> int, p: T -> bool)
    requires SortedDesc(s, key) && s != [] && key(s[0]) <= key(x)
    ensures SortedDesc(Filter(s, p), key)
    ensures Filter(Insert(x, s, key), p)
         == if p(x) then Insert(x, Filter(s, p), key) else Filter(s, p)
  {
    FilterCons(x, s, p);
    assert KeysAtMost(s, key, key(s[0]));
    FilterKeepsSorted(s, p, key);
    FilterKeepsBound(s, p, key, key(s[0]));
    var f := Filter(s, p);
    assert f == [] || key(f[0]) <= key(x);
  }

  /** FilterInsert when `x` goes behind the head. */
  lemma {:induction false} FilterBehind<T>(x: T, s: seq<T>, key: T -> int, p: T -> bool)
    requires SortedDesc(s, key) && s != [] && key(s[0]) > key(x)
    ensures SortedDesc(Filter(s, p), key)
    ensures Filter(Insert(x, s, key), p)
         == if p(x) then Insert(x, Filter(s, p), key) else Filter(s, p)
    decreases |s|, 0
  {
    FilterKeepsSorted(s, p, key);
    var h, rest := s[0], s[1..];
    assert SortedDesc(rest, key);
    var t := Insert(x, rest, key);
    assert Insert(x, s, key) == [h] + t;
    FilterCons(h, t, p);
    assert s == [h] + rest;
    FilterCons(h, rest, p);
    FilterInsert(x, rest, key, p);
    FilterKeepsSorted(rest, p, key);
    var f := Filter(rest, p);
    if p(x) && p(h) {
      // h still precedes x among the selected elements
      assert Filter(s, p) == [h] + f;
      assert ([h] + f)[1..] == f;
      assert Insert(x, [h] + f, key) == [h] + Insert(x, f, key);
    }
  }

  /**
   * Filtering the sorted rows gives the same sequence as sorting the
   * filtered rows: adding a WHERE clause keeps the ORDER BY order.
   */
  lemma {:induction false} FilterSortCommute<T>(s: seq<T>, key: T -> int, p: T -> bool)
    ensures Filter(SortDesc(s, key), p) == SortDesc(Filter(s, p), key)
  {
    if s != [] {
      FilterSortCommute(s[1..], key, p);
      FilterInsert(s[0], SortDesc(s[1..], key), key, p);
    }
  }

  /**
   * The rows that satisfy `p` and the rows that do not together make up
   * the whole sequence.
   */
  lemma {:induction false} FilterSplit<T>(s: seq<T>, p: T -> bool, q: T -> bool)
    requires forall x | x in s :: q(x) == !p(x)
    ensures multiset(Filter(s, p)) + multiset(Filter(s, q)) == multiset(s)
    ensures |Filter(s, p)| + |Filter(s, q)| == |s|
  {
    if s != [] {
      FilterSplit(s[1..], p, q);
      assert s == [s[0]] + s[1..];
    }
  }
}
