/**
 * Generic relational building blocks: a table is a sequence of rows, each
 * carrying its primary key. Filtering, summing and counting are defined over
 * sequences so that every aggregate of the server layer is a plain recursion.
 */
module Tables {
  import opened Wrappers

  /** A primary key (a uuid in the database; only equality matters). */
  type Id = nat

  datatype Row<T> = Row(id: Id, val: T)

  type Table<T> = seq<Row<T>>

  /** The primary keys present in a table. */
  function Ids<T(==)>(t: Table<T>): set<Id> {
    set r | r in t :: r.id
  }

  /** The primary-key constraint: no two rows share an id. */
  predicate KeysUnique<T>(t: Table<T>) {
    forall i, j | 0 <= i < |t| && 0 <= j < |t| && t[i].id == t[j].id :: i == j
  }

  /** The row with a given primary key, if any (`where id = $1 limit 1`). */
  function Get<T>(t: Table<T>, id: Id): (r: Option<T>)
    ensures r.Some? <==> id in Ids(t)
    ensures r.Some? ==> Row(id, r.value) in t
    ensures KeysUnique(t) ==> forall i | 0 <= i < |t| && t[i].id == id :: r == Some(t[i].val)
  {
    if |t| == 0 then None
    else if t[0].id == id then Some(t[0].val)
    else
      var r := Get(t[1..], id);
      assert t == [t[0]] + t[1..];
      assert Ids(t) == {t[0].id} + Ids(t[1..]);
      r
  }

  /** The rows satisfying a predicate, in their original order (`where p`). */
  function Where<T>(xs: seq<T>, p: T -> bool): (r: seq<T>)
    ensures |r| <= |xs|
    ensures forall i | 0 <= i < |r| :: r[i] in xs && p(r[i])
    ensures forall i | 0 <= i < |xs| && p(xs[i]) :: xs[i] in r
  {
    if |xs| == 0 then []
    else (if p(xs[0]) then [xs[0]] else []) + Where(xs[1..], p)
  }

  /** `sum(f(x))` over the rows, with the empty sum 0 (i.e. after `coalesce(.., 0)`). */
  function Sum<T>(xs: seq<T>, f: T -> real): real {
    if |xs| == 0 then 0.0 else f(xs[0]) + Sum(xs[1..], f)
  }

  /** `count(*)` of the rows satisfying a predicate. */
  function Count<T>(xs: seq<T>, p: T -> bool): nat {
    |Where(xs, p)|
  }

  lemma {:induction false} SumNonNegative<T>(xs: seq<T>, f: T -> real)
    requires forall x | x in xs :: f(x) >= 0.0
    ensures Sum(xs, f) >= 0.0
  {
    if |xs| > 0 {
      assert xs[0] in xs;
      assert forall x | x in xs[1..] :: x in xs;
      SumNonNegative(xs[1..], f);
    }
  }

  lemma {:induction false} SumNonPositive<T>(xs: seq<T>, f: T -> real)
    requires forall x | x in xs :: f(x) <= 0.0
    ensures Sum(xs, f) <= 0.0
  {
    if |xs| > 0 {
      assert xs[0] in xs;
      assert forall x | x in xs[1..] :: x in xs;
      SumNonPositive(xs[1..], f);
    }
  }

  lemma {:induction false} SumPositive<T>(xs: seq<T>, f: T -> real)
    requires |xs| > 0
    requires forall x | x in xs :: f(x) > 0.0
    ensures Sum(xs, f) > 0.0
  {
    assert xs[0] in xs;
    assert forall x | x in xs[1..] :: x in xs;
    SumNonNegative(xs[1..], f);
  }

  /** Summing a pointwise sum is summing each part. */
  lemma {:induction false} SumAdd<T>(xs: seq<T>, f: T -> real, g: T -> real, h: T -> real)
    requires forall x | x in xs :: h(x) == f(x) + g(x)
    ensures Sum(xs, h) == Sum(xs, f) + Sum(xs, g)
  {
    if |xs| > 0 {
      assert xs[0] in xs;
      assert forall x | x in xs[1..] :: x in xs;
      SumAdd(xs[1..], f, g, h);
    }
  }

  /** Two summands that agree on every row have the same sum. */
  lemma {:induction false} SumCongruent<T>(xs: seq<T>, f: T -> real, g: T -> real)
    requires forall x | x in xs :: f(x) == g(x)
    ensures Sum(xs, f) == Sum(xs, g)
  {
    if |xs| > 0 {
      assert xs[0] in xs;
      assert forall x | x in xs[1..] :: x in xs;
      SumCongruent(xs[1..], f, g);
    }
  }

  /** Appending a row adds its term to the sum. */
  lemma {:induction false} SumAppend<T>(xs: seq<T>, x: T, f: T -> real)
    ensures Sum(xs + [x], f) == Sum(xs, f) + f(x)
  {
    if |xs| > 0 {
      assert (xs + [x])[1..] == xs[1..] + [x];
      SumAppend(xs[1..], x, f);
    }
  }

  /** A filter over an appended row keeps it after the others exactly when it qualifies. */
  lemma {:induction false} WhereAppend<T>(xs: seq<T>, x: T, p: T -> bool)
    ensures Where(xs + [x], p) == Where(xs, p) + (if p(x) then [x] else [])
  {
    if |xs| > 0 {
      assert (xs + [x])[1..] == xs[1..] + [x];
      WhereAppend(xs[1..], x, p);
    }
  }

  /** Rows outside the filter contribute nothing: summing over `Where` is summing a masked term. */
  lemma {:induction false} SumWhere<T>(xs: seq<T>, p: T -> bool, f: T -> real, g: T -> real)
    requires forall x | x in xs :: g(x) == if p(x) then f(x) else 0.0
    ensures Sum(Where(xs, p), f) == Sum(xs, g)
  {
    if |xs| > 0 {
      assert xs[0] in xs;
      assert forall x | x in xs[1..] :: x in xs;
      SumWhere(xs[1..], p, f, g);
      var w := (if p(xs[0]) then [xs[0]] else []) + Where(xs[1..], p);
      assert Where(xs, p) == w;
      if p(xs[0]) {
        assert w[0] == xs[0] && w[1..] == Where(xs[1..], p);
      } else {
        assert w == Where(xs[1..], p);
      }
    }
  }

  /** A filter whose predicate holds nowhere yields nothing. */
  lemma {:induction false} WhereEmpty<T>(xs: seq<T>, p: T -> bool)
    requires forall x | x in xs :: !p(x)
    ensures Where(xs, p) == []
  {
    if |xs| > 0 {
      assert xs[0] in xs;
      assert forall x | x in xs[1..] :: x in xs;
      WhereEmpty(xs[1..], p);
    }
  }

  /** Filtering keeps the primary-key constraint. */
  lemma {:induction false} WhereKeysUnique<T>(t: Table<T>, p: Row<T> -> bool)
    ensures KeysUnique(t) ==> KeysUnique(Where(t, p))
  {
    if |t| > 0 && KeysUnique(t) {
      assert KeysUnique(t[1..]) by {
        forall i, j | 0 <= i < |t[1..]| && 0 <= j < |t[1..]| && t[1..][i].id == t[1..][j].id
          ensures i == j
        {
          assert t[i + 1].id == t[j + 1].id;
        }
      }
      WhereKeysUnique(t[1..], p);
      var rest := Where(t[1..], p);
      var w := (if p(t[0]) then [t[0]] else []) + rest;
      assert Where(t, p) == w;
      if p(t[0]) {
        forall j | 0 <= j < |rest| ensures rest[j].id != t[0].id {
          assert rest[j] in rest;
          var k :| 0 <= k < |t[1..]| && t[1..][k] == rest[j];
          assert t[k + 1] == rest[j];
        }
        forall i, j | 0 <= i < |w| && 0 <= j < |w| && w[i].id == w[j].id ensures i == j {
          if i > 0 && j > 0 { assert rest[i - 1].id == rest[j - 1].id; }
        }
      }
    }
  }

  /** The ids a filter keeps are ids of the table. */
  lemma WhereIds<T>(t: Table<T>, p: Row<T> -> bool)
    ensures Ids(Where(t, p)) <= Ids(t)
    ensures forall r | r in t && p(r) :: r.id in Ids(Where(t, p))
  {
  }

  /** The rows whose id is not in `ids` (`delete .. where id in ids`, seen from the survivors). */
  function RemoveIds<T>(t: Table<T>, ids: set<Id>): (r: Table<T>)
    ensures forall x | x in r :: x in t && x.id !in ids
    ensures forall x | x in t && x.id !in ids :: x in r
    ensures Ids(r) == Ids(t) - ids
    ensures KeysUnique(t) ==> KeysUnique(r)
    ensures (forall x | x in t :: x.id !in ids) ==> r == t
  {
    var r := Where(t, (x: Row<T>) => x.id !in ids);
    WhereKeysUnique(t, (x: Row<T>) => x.id !in ids);
    if forall i | 0 <= i < |t| :: t[i].id !in ids then
      WhereAll(t, (x: Row<T>) => x.id !in ids);
      r
    else
      r
  }

  /** The rows whose id is in `ids` (what a `delete .. returning` reports). */
  function RowsWithIds<T>(t: Table<T>, ids: set<Id>): (r: Table<T>)
    ensures forall x | x in r :: x in t && x.id in ids
    ensures forall x | x in t && x.id in ids :: x in r
    ensures Ids(r) == Ids(t) * ids
    ensures KeysUnique(t) ==> KeysUnique(r)
  {
    var keep := (x: Row<T>) => x.id in ids;
    WhereKeysUnique(t, keep);
    Where(t, keep)
  }

  /** The rows a `delete .. returning` reports are exactly the ones that are gone afterwards. */
  lemma RemovedRowsReturned<T>(t: Table<T>, ids: set<Id>, rest: Table<T>)
    requires Ids(rest) == Ids(t) - ids
    ensures Ids(RowsWithIds(t, ids)) == Ids(t) - Ids(rest)
  {
  }

  /** Applies a function to every stored value, keeping ids and order (`update .. set`). */
  function MapVals<T>(t: Table<T>, f: Row<T> -> T): (r: Table<T>)
    ensures |r| == |t|
    ensures forall i | 0 <= i < |t| :: r[i] == Row(t[i].id, f(t[i]))
  {
    seq(|t|, i requires 0 <= i < |t| => Row(t[i].id, f(t[i])))
  }

  lemma MapValsKeys<T>(t: Table<T>, f: Row<T> -> T)
    ensures Ids(MapVals(t, f)) == Ids(t)
    ensures KeysUnique(t) ==> KeysUnique(MapVals(t, f))
  {
    var r := MapVals(t, f);
    forall x | x in Ids(t) ensures x in Ids(r) {
      var i :| 0 <= i < |t| && t[i].id == x;
      assert r[i] in r;
    }
    forall x | x in Ids(r) ensures x in Ids(t) {
      var i :| 0 <= i < |r| && r[i].id == x;
      assert t[i] in t;
    }
  }

  /** Projects every row through a function, keeping order (a `select` list). */
  function Project<T, U>(xs: seq<T>, f: T -> U): (r: seq<U>)
    ensures |r| == |xs|
    ensures forall i | 0 <= i < |xs| :: r[i] == f(xs[i])
  {
    seq(|xs|, i requires 0 <= i < |xs| => f(xs[i]))
  }

  /** No value occurs twice. */
  predicate NoDup<K(==)>(ks: seq<K>) {
    forall i, j | 0 <= i < |ks| && 0 <= j < |ks| && ks[i] == ks[j] :: i == j
  }

  /** The distinct values, in order of first occurrence (the groups of a `group by`). */
  function Distinct<K(==)>(ks: seq<K>): (r: seq<K>)
    ensures NoDup(r)
    ensures forall i | 0 <= i < |r| :: r[i] in ks
    ensures forall i | 0 <= i < |ks| :: ks[i] in r
  {
    if |ks| == 0 then []
    else
      var rest := Distinct(ks[..|ks| - 1]);
      var last := ks[|ks| - 1];
      assert forall i | 0 <= i < |ks| - 1 :: ks[..|ks| - 1][i] == ks[i];
      if last in rest then rest
      else
        var r := rest + [last];
        assert forall i | 0 <= i < |rest| :: r[i] == rest[i];
        r
  }

  /**
   * Grouping then summing each group and adding the group sums gives the sum
   * over every row whose key is one of the groups. `sel(k)` selects the group
   * of key `k`, `g(k)` is that group's sum and `inKeys` selects the rows
   * whose key is listed.
   */
  lemma {:induction false} SumByKeys<T, K>(keys: seq<K>, xs: seq<T>, key: T -> K, sel: K -> T -> bool,
                                           inKeys: T -> bool, f: T -> real, g: K -> real)
    requires NoDup(keys)
    requires forall k, x | x in xs :: sel(k)(x) == (key(x) == k)
    requires forall x | x in xs :: inKeys(x) == (key(x) in keys)
    requires forall k | k in keys :: g(k) == Sum(Where(xs, sel(k)), f)
    ensures Sum(keys, g) == Sum(Where(xs, inKeys), f)
  {
    if |keys| == 0 {
      WhereEmpty(xs, inKeys);
    } else {
      var k := keys[0];
      var ks := keys[1..];
      NoDupTail(keys);
      var inKs := (x: T) => key(x) in ks;
      assert forall k | k in ks :: k in keys;
      SumByKeys(ks, xs, key, sel, inKs, f, g);
      SumWhereDisjoint(xs, sel(k), inKs, inKeys, f);
    }
  }

  /** Without duplicates, the head does not recur and the tail has none. */
  lemma NoDupTail<K>(keys: seq<K>)
    requires NoDup(keys) && |keys| > 0
    ensures NoDup(keys[1..]) && keys[0] !in keys[1..]
  {
    var ks := keys[1..];
    forall i, j | 0 <= i < |ks| && 0 <= j < |ks| && ks[i] == ks[j] ensures i == j {
      assert keys[i + 1] == keys[j + 1];
    }
    forall i | 0 <= i < |ks| ensures ks[i] != keys[0] {
      assert keys[i + 1] != keys[0];
    }
  }

  /** Filtering by a disjoint union sums the two filters. */
  lemma SumWhereDisjoint<T>(xs: seq<T>, p: T -> bool, q: T -> bool, pq: T -> bool, f: T -> real)
    requires forall x | x in xs :: pq(x) == (p(x) || q(x)) && !(p(x) && q(x))
    ensures Sum(Where(xs, pq), f) == Sum(Where(xs, p), f) + Sum(Where(xs, q), f)
  {
    var mP := (x: T) => if p(x) then f(x) else 0.0;
    var mQ := (x: T) => if q(x) then f(x) else 0.0;
    var mPQ := (x: T) => if pq(x) then f(x) else 0.0;
    SumWhere(xs, p, f, mP);
    SumWhere(xs, q, f, mQ);
    SumWhere(xs, pq, f, mPQ);
    SumAdd(xs, mP, mQ, mPQ);
  }

  /** A filter that keeps every row is the identity. */
  lemma {:induction false} WhereAll<T>(xs: seq<T>, p: T -> bool)
    requires forall x | x in xs :: p(x)
    ensures Where(xs, p) == xs
  {
    if |xs| > 0 {
      assert xs[0] in xs;
      assert forall x | x in xs[1..] :: x in xs;
      WhereAll(xs[1..], p);
      assert xs == [xs[0]] + xs[1..];
    }
  }

  /** Replaces the stored value of the row with the given id (`update .. set .. where id = $1`). */
  function SetVal<T>(t: Table<T>, id: Id, v: T): (r: Table<T>)
    ensures |r| == |t|
    ensures forall i | 0 <= i < |t| :: r[i] == (if t[i].id == id then Row(id, v) else t[i])
    ensures Ids(r) == Ids(t)
    ensures KeysUnique(t) ==> KeysUnique(r)
    ensures forall x | x in t && x.id != id :: x in r
    ensures forall x | x in r && x.id != id :: x in t
  {
    var f := (x: Row<T>) => if x.id == id then v else x.val;
    MapValsKeys(t, f);
    var r := MapVals(t, f);
    assert forall i | 0 <= i < |t| :: r[i] == (if t[i].id == id then Row(id, v) else t[i]);
    assert forall x | x in t && x.id != id :: x in r by {
      forall x | x in t && x.id != id ensures x in r {
        var i :| 0 <= i < |t| && t[i] == x;
        assert r[i] == x;
      }
    }
    r
  }

  lemma SetValGet<T>(t: Table<T>, id: Id, v: T, other: Id)
    ensures KeysUnique(t) ==>
              Get(SetVal(t, id, v), other) == if other == id && id in Ids(t) then Some(v) else Get(t, other)
  {
    var r := SetVal(t, id, v);
    if KeysUnique(t) && other in Ids(t) {
      var i :| 0 <= i < |t| && t[i].id == other;
      assert r[i].id == other;
    }
  }

  /** Appending a row keeps the primary key unique exactly when its id is new. */
  lemma AppendRow<T>(t: Table<T>, id: Id, v: T)
    ensures Ids(t + [Row(id, v)]) == Ids(t) + {id}
    ensures KeysUnique(t + [Row(id, v)]) <==> KeysUnique(t) && id !in Ids(t)
    ensures KeysUnique(t + [Row(id, v)]) ==> Get(t + [Row(id, v)], id) == Some(v)
  {
    var r := t + [Row(id, v)];
    assert r[|t|] == Row(id, v);
    assert forall i | 0 <= i < |t| :: r[i] == t[i];
    if KeysUnique(r) {
      assert KeysUnique(t) by {
        forall i, j | 0 <= i < |t| && 0 <= j < |t| && t[i].id == t[j].id ensures i == j {
          assert r[i].id == r[j].id;
        }
      }
      forall x | x in t ensures x.id != id {
        var i :| 0 <= i < |t| && t[i] == x;
        assert r[i].id == x.id;
      }
    }
  }

  /** Summing a projection is summing the composed function. */
  lemma {:induction false} SumProject<T, U>(xs: seq<T>, f: T -> U, g: U -> real, h: T -> real)
    requires forall x | x in xs :: h(x) == g(f(x))
    ensures Sum(Project(xs, f), g) == Sum(xs, h)
  {
    if |xs| > 0 {
      assert Project(xs, f)[1..] == Project(xs[1..], f);
      assert forall x | x in xs[1..] :: x in xs;
      SumProject(xs[1..], f, g, h);
    }
  }

  /** Summing 1 per element counts the elements. */
  lemma {:induction false} SumOnes<T>(xs: seq<T>, f: T -> real)
    requires forall x | x in xs :: f(x) == 1.0
    ensures Sum(xs, f) == |xs| as real
  {
    if |xs| > 0 {
      assert forall x | x in xs[1..] :: x in xs;
      SumOnes(xs[1..], f);
    }
  }

  /** Two filters that agree on every row select the same rows. */
  lemma {:induction false} WhereCongruent<T>(xs: seq<T>, p: T -> bool, q: T -> bool)
    requires forall x | x in xs :: p(x) == q(x)
    ensures Where(xs, p) == Where(xs, q)
  {
    if |xs| > 0 {
      assert forall x | x in xs[1..] :: x in xs;
      WhereCongruent(xs[1..], p, q);
    }
  }

  /** The primary keys of a table, in row order. */
  function Keys<T>(t: Table<T>): (r: seq<Id>)
    ensures |r| == |t|
    ensures forall i | 0 <= i < |t| :: r[i] == t[i].id
    ensures KeysUnique(t) ==> NoDup(r)
  {
    Project(t, (x: Row<T>) => x.id)
  }

  /** `where id = $1 and p limit 1`: the row with the given key, when it also satisfies `p`. */
  function SelectById<T>(t: Table<T>, id: Id, p: T -> bool): (r: Table<T>)
    ensures |r| <= 1
    ensures forall x | x in r :: x in t && x.id == id && p(x.val)
    ensures KeysUnique(t) ==> (r != [] <==> Get(t, id).Some? && p(Get(t, id).value))
  {
    var matching := Where(t, (x: Row<T>) => x.id == id && p(x.val));
    WhereMember(t, (x: Row<T>) => x.id == id && p(x.val));
    if |matching| == 0 then [] else [matching[0]]
  }

  lemma WhereWithin<T>(xs: seq<T>, p: T -> bool)
    ensures forall x | x in Where(xs, p) :: x in xs && p(x)
  {
    forall x | x in Where(xs, p) ensures x in xs && p(x) {
      var i :| 0 <= i < |Where(xs, p)| && Where(xs, p)[i] == x;
    }
  }

  lemma WhereMember<T>(xs: seq<T>, p: T -> bool)
    ensures forall x | x in xs && p(x) :: x in Where(xs, p)
  {
    forall x | x in xs && p(x) ensures x in Where(xs, p) {
      var i :| 0 <= i < |xs| && xs[i] == x;
    }
  }

  /** The image of the rows satisfying `p` holds exactly the images of those rows. */
  lemma ProjectWhereCovers<T, U>(xs: seq<T>, p: T -> bool, f: T -> U)
    ensures forall y | y in Project(Where(xs, p), f) :: exists x | x in xs :: p(x) && y == f(x)
    ensures forall x | x in xs && p(x) :: f(x) in Project(Where(xs, p), f)
  {
    var rows := Where(xs, p);
    var r := Project(rows, f);
    forall y | y in r ensures exists x | x in xs :: p(x) && y == f(x) {
      var i :| 0 <= i < |r| && r[i] == y;
      assert rows[i] in xs && p(rows[i]);
    }
    forall x | x in xs && p(x) ensures f(x) in r {
      WhereMember(xs, p);
      var i :| 0 <= i < |rows| && rows[i] == x;
      assert r[i] == f(x);
    }
  }

  /** Rewriting the values of the rows satisfying `p` yields exactly those rows, rewritten. */
  lemma MapValsWhereCovers<T>(t: Table<T>, p: Row<T> -> bool, f: Row<T> -> T)
    ensures forall x | x in MapVals(Where(t, p), f) :: exists y | y in t :: p(y) && x == Row(y.id, f(y))
    ensures forall y | y in t && p(y) :: Row(y.id, f(y)) in MapVals(Where(t, p), f)
  {
    var rows := Where(t, p);
    var r := MapVals(rows, f);
    forall x | x in r ensures exists y | y in t :: p(y) && x == Row(y.id, f(y)) {
      var i :| 0 <= i < |r| && r[i] == x;
      assert rows[i] in t && p(rows[i]);
    }
    forall y | y in t && p(y) ensures Row(y.id, f(y)) in r {
      WhereMember(t, p);
      var i :| 0 <= i < |rows| && rows[i] == y;
      assert r[i] == Row(y.id, f(y));
    }
  }

  /** Summing over the keys of a table is summing over its rows. */
  lemma {:induction false} SumKeys<T>(t: Table<T>, g: Id -> real, h: Row<T> -> real)
    requires forall x | x in t :: h(x) == g(x.id)
    ensures Sum(Keys(t), g) == Sum(t, h)
  {
    if |t| > 0 {
      assert Keys(t)[1..] == Keys(t[1..]);
      assert forall x | x in t[1..] :: x in t;
      SumKeys(t[1..], g, h);
    }
  }

  /** Each element expanded to a sequence, concatenated (a one-to-many join). */
  function FlatMap<T, U>(xs: seq<T>, f: T -> seq<U>): (r: seq<U>)
    ensures |xs| == 0 ==> r == []
    ensures |xs| == 1 ==> r == f(xs[0])
  {
    if |xs| == 0 then [] else f(xs[0]) + FlatMap(xs[1..], f)
  }

  /** An element of a `FlatMap` comes from the expansion of some element, and every expansion is in it. */
  lemma {:induction false} FlatMapMember<T, U>(xs: seq<T>, f: T -> seq<U>, y: U)
    ensures y in FlatMap(xs, f) <==> exists i | 0 <= i < |xs| :: y in f(xs[i])
  {
    if |xs| > 0 {
      FlatMapMember(xs[1..], f, y);
      if y in FlatMap(xs[1..], f) {
        var i :| 0 <= i < |xs[1..]| && y in f(xs[1..][i]);
        assert y in f(xs[i + 1]);
      }
      if exists i | 0 <= i < |xs| :: y in f(xs[i]) {
        var i :| 0 <= i < |xs| && y in f(xs[i]);
        if i > 0 {
          assert y in f(xs[1..][i - 1]);
        }
      }
    }
  }

  /** Filtering a concatenation filters each part. */
  lemma {:induction false} WhereConcat<T>(a: seq<T>, b: seq<T>, p: T -> bool)
    ensures Where(a + b, p) == Where(a, p) + Where(b, p)
  {
    if |a| > 0 {
      assert (a + b)[0] == a[0];
      assert (a + b)[1..] == a[1..] + b;
      WhereConcat(a[1..], b, p);
      var head := if p(a[0]) then [a[0]] else [];
      calc {
        Where(a + b, p);
        head + Where(a[1..] + b, p);
        head + (Where(a[1..], p) + Where(b, p));
        (head + Where(a[1..], p)) + Where(b, p);
      }
    } else {
      assert a + b == b;
    }
  }

  /**
   * When the filter keeps all of one element's expansion and nothing of any
   * other's, filtering the `FlatMap` recovers that expansion alone.
   */
  lemma {:induction false} WhereFlatMapOne<T, U>(xs: seq<T>, f: T -> seq<U>, p: U -> bool, k: nat)
    requires k < |xs|
    requires forall y | y in f(xs[k]) :: p(y)
    requires forall j, y | 0 <= j < |xs| && j != k && y in f(xs[j]) :: !p(y)
    ensures Where(FlatMap(xs, f), p) == f(xs[k])
  {
    WhereConcat(f(xs[0]), FlatMap(xs[1..], f), p);
    if k == 0 {
      WhereAll(f(xs[0]), p);
      forall y | y in FlatMap(xs[1..], f) ensures !p(y) {
        FlatMapMember(xs[1..], f, y);
        var i :| 0 <= i < |xs[1..]| && y in f(xs[1..][i]);
        assert y in f(xs[i + 1]);
      }
      WhereEmpty(FlatMap(xs[1..], f), p);
    } else {
      WhereEmpty(f(xs[0]), p);
      forall j, y | 0 <= j < |xs[1..]| && j != k - 1 && y in f(xs[1..][j]) ensures !p(y) {
        assert xs[1..][j] == xs[j + 1];
      }
      WhereFlatMapOne(xs[1..], f, p, k - 1);
    }
  }

  lemma FlatMapCovers<T, U>(xs: seq<T>, f: T -> seq<U>)
    ensures forall y | y in FlatMap(xs, f) :: exists i | 0 <= i < |xs| :: y in f(xs[i])
    ensures forall i, y | 0 <= i < |xs| && y in f(xs[i]) :: y in FlatMap(xs, f)
  {
    forall y | y in FlatMap(xs, f) ensures exists i | 0 <= i < |xs| :: y in f(xs[i]) {
      FlatMapMember(xs, f, y);
    }
    forall i, y | 0 <= i < |xs| && y in f(xs[i]) ensures y in FlatMap(xs, f) {
      FlatMapMember(xs, f, y);
    }
  }

  /** Without duplicates, every value occurs at most once. */
  lemma {:induction false} NoDupCounts<K>(xs: seq<K>, x: K)
    requires NoDup(xs)
    ensures multiset(xs)[x] <= 1
  {
    if |xs| > 0 {
      assert xs == [xs[0]] + xs[1..];
      assert NoDup(xs[1..]) by {
        forall i, j | 0 <= i < |xs[1..]| && 0 <= j < |xs[1..]| && xs[1..][i] == xs[1..][j] ensures i == j {
          assert xs[i + 1] == xs[j + 1];
        }
      }
      NoDupCounts(xs[1..], x);
      if xs[0] == x {
        assert x !in xs[1..] by {
          forall i | 0 <= i < |xs[1..]| ensures xs[1..][i] != x {
            assert xs[i + 1] != xs[0];
          }
        }
      }
    }
  }

  /** Reordering keeps a sequence free of duplicates. */
  lemma NoDupPermutation<K>(xs: seq<K>, ys: seq<K>)
    requires multiset(xs) == multiset(ys)
    requires NoDup(xs)
    ensures NoDup(ys)
  {
    forall i, j | 0 <= i < |ys| && 0 <= j < |ys| && ys[i] == ys[j] ensures i == j {
      if i != j {
        var lo, hi := if i < j then i else j, if i < j then j else i;
        var y := ys[lo];
        assert ys == ys[..hi] + ys[hi..];
        assert ys[..hi][lo] == y && ys[hi..][0] == y;
        assert multiset(ys[..hi])[y] >= 1 && multiset(ys[hi..])[y] >= 1;
        assert multiset(ys)[y] >= 2;
        NoDupCounts(xs, y);
        assert false;
      }
    }
  }
}
