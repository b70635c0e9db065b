/**
 * Ordering of query results: a stable insertion sort by a comparison, and
 * the string collation used for `order by name`.
 */
module Sorting {
  import opened Tables

  /** A comparison under which any two values are comparable. */
  ghost predicate Total<T(!new)>(le: (T, T) -> bool) {
    forall a, b :: le(a, b) || le(b, a)
  }

  ghost predicate Transitive<T(!new)>(le: (T, T) -> bool) {
    forall a, b, c :: le(a, b) && le(b, c) ==> le(a, c)
  }

  predicate SortedBy<T>(xs: seq<T>, le: (T, T) -> bool) {
    forall i, j | 0 <= i < j < |xs| :: le(xs[i], xs[j])
  }

  function Insert<T>(x: T, xs: seq<T>, le: (T, T) -> bool): (r: seq<T>)
    ensures multiset(r) == multiset(xs) + multiset{x}
  {
    if |xs| == 0 then [x]
    else if le(x, xs[0]) then [x] + xs
    else
      assert xs == [xs[0]] + xs[1..];
      [xs[0]] + Insert(x, xs[1..], le)
  }

  /** The rows reordered by `le` (`order by`); rows that compare equal keep their order. */
  function SortBy<T>(xs: seq<T>, le: (T, T) -> bool): (r: seq<T>)
    ensures multiset(r) == multiset(xs)
    ensures |r| == |xs|
  {
    if |xs| == 0 then []
    else
      assert xs == [xs[0]] + xs[1..];
      var r := Insert(xs[0], SortBy(xs[1..], le), le);
      assert |r| == |multiset(r)| == |multiset(xs)| == |xs|;
      r
  }

  /** Sorting keeps exactly the rows it is given. */
  lemma SortByMembers<T>(xs: seq<T>, le: (T, T) -> bool)
    ensures forall x :: x in SortBy(xs, le) <==> x in xs
  {
    var r := SortBy(xs, le);
    forall x ensures x in r <==> x in xs {
      assert x in r <==> x in multiset(r);
      assert x in xs <==> x in multiset(xs);
    }
  }

  lemma {:induction false} InsertSorted<T(!new)>(x: T, xs: seq<T>, le: (T, T) -> bool)
    requires Total(le) && Transitive(le)
    requires SortedBy(xs, le)
    ensures SortedBy(Insert(x, xs, le), le)
  {
    if |xs| > 0 && !le(x, xs[0]) {
      var tail := Insert(x, xs[1..], le);
      InsertSorted(x, xs[1..], le);
      assert le(xs[0], x);
      forall y | y in tail ensures le(xs[0], y) {
        assert y in multiset(tail);
        if y != x {
          assert y in multiset(xs[1..]);
          var k :| 0 <= k < |xs[1..]| && xs[1..][k] == y;
          assert xs[k + 1] == y;
        }
      }
      var r := [xs[0]] + tail;
      forall i, j | 0 <= i < j < |r| ensures le(r[i], r[j]) {
        if i == 0 { assert r[j] == tail[j - 1] && tail[j - 1] in tail; }
        else { assert r[i] == tail[i - 1] && r[j] == tail[j - 1]; }
      }
    }
  }

  lemma {:induction false} SortBySorted<T(!new)>(xs: seq<T>, le: (T, T) -> bool)
    requires Total(le) && Transitive(le)
    ensures SortedBy(SortBy(xs, le), le)
  {
    if |xs| > 0 {
      SortBySorted(xs[1..], le);
      InsertSorted(xs[0], SortBy(xs[1..], le), le);
    }
  }

  lemma {:induction false} SumInsert<T>(x: T, xs: seq<T>, le: (T, T) -> bool, f: T -> real)
    ensures Sum(Insert(x, xs, le), f) == f(x) + Sum(xs, f)
  {
    if |xs| > 0 && !le(x, xs[0]) {
      SumInsert(x, xs[1..], le, f);
    }
  }

  /** Reordering rows leaves their sum unchanged. */
  lemma {:induction false} SumSortBy<T>(xs: seq<T>, le: (T, T) -> bool, f: T -> real)
    ensures Sum(SortBy(xs, le), f) == Sum(xs, f)
  {
    if |xs| > 0 {
      SumSortBy(xs[1..], le, f);
      SumInsert(xs[0], SortBy(xs[1..], le), le, f);
    }
  }

  /** The image of the sorted rows satisfying `p` holds exactly the images of those rows. */
  lemma SortedImageCovers<T, U>(xs: seq<T>, p: T -> bool, le: (T, T) -> bool, f: T -> U)
    ensures forall y | y in Project(SortBy(Where(xs, p), le), f) :: exists x | x in xs :: p(x) && y == f(x)
    ensures forall x | x in xs && p(x) :: f(x) in Project(SortBy(Where(xs, p), le), f)
  {
    var rows := Where(xs, p);
    var sorted := SortBy(rows, le);
    var r := Project(sorted, f);
    SortByMembers(rows, le);
    WhereWithin(xs, p);
    WhereMember(xs, p);
    forall y | y in r ensures exists x | x in xs :: p(x) && y == f(x) {
      var i :| 0 <= i < |r| && r[i] == y;
      assert sorted[i] in rows;
    }
    forall x | x in xs && p(x) ensures f(x) in r {
      var i :| 0 <= i < |sorted| && sorted[i] == x;
      assert r[i] == f(x);
    }
  }

  /** Ascending order of numbers. */
  function AtMost(a: int, b: int): bool { a <= b }

  lemma AtMostOrders()
    ensures Total(AtMost) && Transitive(AtMost)
  {
  }

  /** Ascending numbers without duplicates are strictly ascending. */
  lemma AscendingStrictly(r: seq<int>)
    requires NoDup(r) && SortedBy(r, AtMost)
    ensures forall i, j | 0 <= i < j < |r| :: r[i] < r[j]
  {
    forall i, j | 0 <= i < j < |r| ensures r[i] < r[j] {
      assert AtMost(r[i], r[j]);
    }
  }

  /** Descending order of a real-valued measure. */
  function ByMeasureDesc<K>(g: K -> real): (K, K) -> bool {
    (a: K, b: K) => g(a) >= g(b)
  }

  lemma ByMeasureDescOrders<K(!new)>(g: K -> real)
    ensures Total(ByMeasureDesc(g)) && Transitive(ByMeasureDesc(g))
  {
  }

  /** Strings compared character by character, a proper prefix first (the C collation). */
  predicate LexLe(a: string, b: string) {
    |a| == 0 || (|b| > 0 && (a[0] < b[0] || (a[0] == b[0] && LexLe(a[1..], b[1..]))))
  }

  lemma {:induction false} LexLeTotal(a: string, b: string)
    ensures LexLe(a, b) || LexLe(b, a)
  {
    if |a| > 0 && |b| > 0 && a[0] == b[0] {
      LexLeTotal(a[1..], b[1..]);
    }
  }

  lemma {:induction false} LexLeTransitive(a: string, b: string, c: string)
    requires LexLe(a, b) && LexLe(b, c)
    ensures LexLe(a, c)
  {
    if |a| > 0 && a[0] == b[0] && b[0] == c[0] {
      LexLeTransitive(a[1..], b[1..], c[1..]);
    }
  }

  /**
   * The distinct keys of the rows, ordered by `le`: the groups of
   * `group by key order by ..`.
   */
  function SortedKeys<T, K(==,!new)>(xs: seq<T>, key: T -> K, le: (K, K) -> bool): (r: seq<K>)
    requires Total(le) && Transitive(le)
    ensures NoDup(r)
    ensures SortedBy(r, le)
    ensures forall k | k in r :: exists x | x in xs :: key(x) == k
    ensures forall x | x in xs :: key(x) in r
  {
    var keys := Project(xs, key);
    var distinct := Distinct(keys);
    var r := SortBy(distinct, le);
    SortBySorted(distinct, le);
    SortByMembers(distinct, le);
    NoDupPermutation(distinct, r);
    forall k | k in r ensures exists x | x in xs :: key(x) == k {
      var i :| 0 <= i < |keys| && keys[i] == k;
      assert xs[i] in xs;
    }
    forall x | x in xs ensures key(x) in r {
      var i :| 0 <= i < |xs| && xs[i] == x;
      assert keys[i] == key(x);
    }
    r
  }
}
