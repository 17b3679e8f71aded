/**
 * The handful of data-frame operations the ETL is built from, over sequences of rows:
 * `dropna`/boolean filtering, `drop_duplicates` (first occurrence wins), a left `merge`,
 * `groupby(...).sum()` and `groupby(...).idxmax()`.
 */
module Frames {
  import opened Common
  import opened Measures

  // ---------------------------------------------------------------- filtering

  /** The rows satisfying `p`, in their original order. */
  function Filter<T(!new)>(s: seq<T>, p: T -> bool): (r: seq<T>)
    ensures |r| <= |s|
    ensures forall x :: x in r <==> x in s && p(x)
  {
    if s == [] then [] else (if p(s[0]) then [s[0]] else []) + Filter(s[1..], p)
  }

  /** Filtering a sequence with one more row at its end filters that row last. */
  lemma {:induction false} FilterSnoc<T(!new)>(s: seq<T>, x: T, p: T -> bool)
    ensures Filter(s + [x], p) == Filter(s, p) + (if p(x) then [x] else [])
  {
    if s != [] {
      assert (s + [x])[1..] == s[1..] + [x];
      FilterSnoc(s[1..], x, p);
    }
  }

  /** The rows whose key differs from `k`. */
  function Without<T(!new), K(==)>(s: seq<T>, key: T -> K, k: K): (r: seq<T>)
    ensures |r| <= |s|
    ensures forall x :: x in r <==> x in s && key(x) != k
  {
    if s == [] then [] else (if key(s[0]) != k then [s[0]] else []) + Without(s[1..], key, k)
  }

  /** The rows whose key is `k`, in their original order. */
  function Matches<T(!new), K(==)>(s: seq<T>, key: T -> K, k: K): (r: seq<T>)
    ensures forall x :: x in r <==> x in s && key(x) == k
  {
    if s == [] then [] else (if key(s[0]) == k then [s[0]] else []) + Matches(s[1..], key, k)
  }

  // ---------------------------------------------------------------- lookup and de-duplication

  /** The first row whose key is `k`: what a lookup in a frame with repeated keys returns. */
  function First<T(!new), K(==)>(s: seq<T>, key: T -> K, k: K): (r: Option<T>)
    ensures r.Some? ==> r.value in s && key(r.value) == k
    ensures r.None? <==> forall x :: x in s ==> key(x) != k
  {
    if s == [] then None else if key(s[0]) == k then Some(s[0]) else First(s[1..], key, k)
  }

  predicate DistinctKeys<T(!new), K(==)>(s: seq<T>, key: T -> K) {
    forall i, j :: 0 <= i < j < |s| ==> key(s[i]) != key(s[j])
  }

  predicate NoDup<T(==)>(s: seq<T>) {
    forall i, j :: 0 <= i < j < |s| ==> s[i] != s[j]
  }

  /** `drop_duplicates(subset=key)`: keeps the first row of every key, in order. */
  function DedupBy<T(!new), K(==)>(s: seq<T>, key: T -> K): (r: seq<T>)
    ensures forall x :: x in r ==> x in s
    ensures DistinctKeys(r, key)
    decreases |s|
  {
    if s == [] then []
    else
      var rest := DedupBy(Without(s[1..], key, key(s[0])), key);
      assert forall x :: x in rest ==> key(x) != key(s[0]);
      [s[0]] + rest
  }

  lemma {:induction false} FirstWithout<T(!new), K>(s: seq<T>, key: T -> K, k: K, k0: K)
    requires k != k0
    ensures First(Without(s, key, k0), key, k) == First(s, key, k)
  {
    if s != [] {
      var w := Without(s[1..], key, k0);
      FirstWithout(s[1..], key, k, k0);
      if key(s[0]) != k0 {
        assert Without(s, key, k0) == [s[0]] + w;
        assert ([s[0]] + w)[1..] == w;
      } else {
        assert Without(s, key, k0) == w;
      }
    }
  }

  /** De-duplicating and then looking up finds exactly what the lookup finds in the original rows. */
  lemma {:induction false} DedupByFirst<T(!new), K>(s: seq<T>, key: T -> K, k: K)
    ensures First(DedupBy(s, key), key, k) == First(s, key, k)
    decreases |s|
  {
    if s != [] && key(s[0]) != k {
      var w := Without(s[1..], key, key(s[0]));
      DedupByFirst(w, key, k);
      FirstWithout(s[1..], key, k, key(s[0]));
      assert DedupBy(s, key) == [s[0]] + DedupBy(w, key);
    }
  }

  /** `drop_duplicates()` on plain values: the same members, each once. */
  function Distinct<T(==,!new)>(s: seq<T>): (r: seq<T>)
    ensures forall x :: x in r <==> x in s
    ensures NoDup(r)
  {
    var r := DedupBy(s, Itself);
    assert forall x :: x in s ==> x in r by {
      forall x | x in s
        ensures x in r
      {
        DedupByFirst(s, Itself, x);
      }
    }
    r
  }

  function Itself<T>(x: T): T {
    x
  }

  /** Dropping the only key a sequence carries leaves nothing. */
  lemma {:induction false} WithoutEvery<T(!new), K>(s: seq<T>, key: T -> K, k: K)
    requires forall i :: 0 <= i < |s| ==> key(s[i]) == k
    ensures Without(s, key, k) == []
  {
    if s != [] {
      WithoutEvery(s[1..], key, k);
    }
  }

  /** A non-empty column holding one value throughout has that value as its only distinct member. */
  lemma DistinctOfConstant<T(!new)>(s: seq<T>, c: T)
    requires s != [] && forall i :: 0 <= i < |s| ==> s[i] == c
    ensures Distinct(s) == [c]
  {
    var w := Without(s[1..], Itself, c);
    WithoutEvery(s[1..], Itself, c);
    assert DedupBy(s, Itself) == [s[0]] + DedupBy(w, Itself);
  }

  /** Filtering keeps keys distinct. */
  lemma {:induction false} FilterDistinctKeys<T(!new), K>(s: seq<T>, p: T -> bool, key: T -> K)
    requires DistinctKeys(s, key)
    ensures DistinctKeys(Filter(s, p), key)
  {
    if s != [] {
      var rest := Filter(s[1..], p);
      FilterDistinctKeys(s[1..], p, key);
      assert Filter(s, p) == (if p(s[0]) then [s[0]] else []) + rest;
      forall x | x in rest
        ensures key(x) != key(s[0])
      {
        var j :| 0 <= j < |s[1..]| && s[1..][j] == x;
        assert s[j + 1] == x;
      }
    }
  }

  /**
   * Looking up in a filtered frame whose keys are distinct: the one row of the key is found only
   * if it passes the filter; a later row can never stand in for it.
   */
  lemma {:induction false} FirstFilterDistinct<T(!new), K>(s: seq<T>, p: T -> bool, key: T -> K, k: K)
    requires DistinctKeys(s, key)
    ensures First(Filter(s, p), key, k)
         == (if First(s, key, k).Some? && p(First(s, key, k).value) then First(s, key, k) else None)
  {
    if s != [] {
      var rest := Filter(s[1..], p);
      assert Filter(s, p) == (if p(s[0]) then [s[0]] else []) + rest;
      if key(s[0]) == k {
        forall x | x in s[1..]
          ensures key(x) != k
        {
          var j :| 0 <= j < |s[1..]| && s[1..][j] == x;
          assert s[j + 1] == x;
        }
        assert First(s[1..], key, k).None?;
        assert First(rest, key, k).None?;
        if p(s[0]) {
          assert Filter(s, p)[0] == s[0];
        }
      } else {
        FirstFilterDistinct(s[1..], p, key, k);
        if p(s[0]) {
          assert (Filter(s, p))[1..] == rest;
        }
      }
    }
  }

  // ---------------------------------------------------------------- left merge

  /**
   * `left.merge(right, how='left')`: every left row is paired with each matching right row in
   * right order, or once with `None` when nothing matches.
   */
  function LeftMerge<L, R(!new), K(==)>(left: seq<L>, right: seq<R>, lk: L -> K, rk: R -> K): (r: seq<(L, Option<R>)>)
    ensures |r| >= |left|
  {
    if left == [] then []
    else
      var ms := Matches(right, rk, lk(left[0]));
      (if ms == [] then [(left[0], None)]
       else seq(|ms|, i requires 0 <= i < |ms| => (left[0], Some(ms[i]))))
      + LeftMerge(left[1..], right, lk, rk)
  }

  lemma {:induction false} MatchesUnique<T(!new), K>(s: seq<T>, key: T -> K, k: K)
    requires DistinctKeys(s, key)
    ensures Matches(s, key, k) == (if First(s, key, k).Some? then [First(s, key, k).value] else [])
  {
    if s != [] {
      MatchesUnique(s[1..], key, k);
    }
  }

  /** When the right keys are unique the merge keeps the left rows one to one, paired with their lookup. */
  lemma {:induction false} LeftMergeUnique<L, R(!new), K>(left: seq<L>, right: seq<R>, lk: L -> K, rk: R -> K)
    requires DistinctKeys(right, rk)
    ensures LeftMerge(left, right, lk, rk)
         == seq(|left|, i requires 0 <= i < |left| => (left[i], First(right, rk, lk(left[i]))))
  {
    if left != [] {
      LeftMergeUnique(left[1..], right, lk, rk);
      MatchesUnique(right, rk, lk(left[0]));
    }
  }

  // ---------------------------------------------------------------- group-by sum

  /** A row ready for grouping: its timestamp, its group key (`None` when the merge found none) and counters. */
  datatype Keyed<K> = Keyed(timestamp: int, key: Option<K>, m: Vector)

  /** One output row of `groupby([Timestamp, key]).sum()`. */
  datatype Group<K> = Group(timestamp: int, key: K, m: Vector)

  predicate Occurs<K(==,!new)>(rows: seq<Keyed<K>>, t: int, k: K) {
    exists i :: 0 <= i < |rows| && rows[i].timestamp == t && rows[i].key == Some(k)
  }

  predicate HasGroup<K(==,!new)>(gs: seq<Group<K>>, t: int, k: K) {
    exists i :: 0 <= i < |gs| && gs[i].timestamp == t && gs[i].key == k
  }

  /** The (timestamp, key) pairs of the rows that have a key. */
  function PresentKeys<K(==,!new)>(rows: seq<Keyed<K>>): (r: seq<(int, K)>)
    ensures forall t, k :: (t, k) in r <==> Occurs(rows, t, k)
  {
    if rows == [] then []
    else
      var rest := PresentKeys(rows[1..]);
      assert forall t, k :: Occurs(rows, t, k) <==>
        (rows[0].timestamp == t && rows[0].key == Some(k)) || Occurs(rows[1..], t, k) by {
        forall t, k
          ensures Occurs(rows, t, k) <==>
            (rows[0].timestamp == t && rows[0].key == Some(k)) || Occurs(rows[1..], t, k)
        {
          if Occurs(rows[1..], t, k) {
            var i :| 0 <= i < |rows| - 1 && rows[1..][i].timestamp == t && rows[1..][i].key == Some(k);
            assert rows[i + 1] == rows[1..][i];
          }
          if Occurs(rows, t, k) {
            var i :| 0 <= i < |rows| && rows[i].timestamp == t && rows[i].key == Some(k);
            if i > 0 {
              assert rows[1..][i - 1] == rows[i];
            }
          }
        }
      }
      (if rows[0].key.Some? then [(rows[0].timestamp, rows[0].key.value)] else []) + rest
  }

  /** What one row adds to group (t, k). */
  function Contrib<K(==,!new)>(x: Keyed<K>, t: int, k: K): Vector {
    if x.timestamp == t && x.key == Some(k) then x.m else Zero()
  }

  /** The column-wise sum of the rows of group (t, k). */
  function SumWhere<K(==,!new)>(rows: seq<Keyed<K>>, t: int, k: K): Vector {
    if rows == [] then Zero() else Add(Contrib(rows[0], t, k), SumWhere(rows[1..], t, k))
  }

  function GroupsOf<K(==,!new)>(rows: seq<Keyed<K>>, keys: seq<(int, K)>): (r: seq<Group<K>>)
    ensures |r| == |keys|
    ensures forall i :: 0 <= i < |r| ==> r[i] == Group(keys[i].0, keys[i].1, SumWhere(rows, keys[i].0, keys[i].1))
  {
    if keys == [] then []
    else [Group(keys[0].0, keys[0].1, SumWhere(rows, keys[0].0, keys[0].1))] + GroupsOf(rows, keys[1..])
  }

  /**
   * `groupby([Timestamp, key]).sum()`: one row per (timestamp, key) pair that some keyed row
   * carries, holding the column-wise sum of exactly those rows; rows without a key are dropped.
   */
  function GroupBySum<K(==,!new)>(rows: seq<Keyed<K>>): (r: seq<Group<K>>)
    ensures forall i :: 0 <= i < |r| ==> r[i].m == SumWhere(rows, r[i].timestamp, r[i].key)
    ensures forall i, j :: 0 <= i < j < |r| ==> (r[i].timestamp, r[i].key) != (r[j].timestamp, r[j].key)
    ensures forall t, k :: HasGroup(r, t, k) <==> Occurs(rows, t, k)
  {
    var keys := Distinct(PresentKeys(rows));
    var r := GroupsOf(rows, keys);
    assert forall t, k :: HasGroup(r, t, k) <==> (t, k) in keys by {
      forall t, k
        ensures HasGroup(r, t, k) <==> (t, k) in keys
      {
        if (t, k) in keys {
          var i :| 0 <= i < |keys| && keys[i] == (t, k);
          assert r[i].timestamp == t && r[i].key == k;
        }
      }
    }
    r
  }

  // ---------------------------------------------------------------- conservation

  /** The column-wise sum of the keyed rows at timestamp `t`. */
  function RowsAt<K(==,!new)>(rows: seq<Keyed<K>>, t: int): Vector {
    if rows == [] then Zero()
    else Add(if rows[0].timestamp == t && rows[0].key.Some? then rows[0].m else Zero(), RowsAt(rows[1..], t))
  }

  /** The column-wise sum of the groups at timestamp `t`. */
  function GroupsAt<K(==,!new)>(gs: seq<Group<K>>, t: int): Vector {
    if gs == [] then Zero()
    else Add(if gs[0].timestamp == t then gs[0].m else Zero(), GroupsAt(gs[1..], t))
  }

  /** What one row adds, over all the groups of `keys` at timestamp `t`. */
  function ContribAt<K(==,!new)>(x: Keyed<K>, keys: seq<(int, K)>, t: int): Vector {
    if keys == [] then Zero()
    else Add(if keys[0].0 == t then Contrib(x, keys[0].0, keys[0].1) else Zero(), ContribAt(x, keys[1..], t))
  }

  lemma {:induction false} SplitFirstRow<K(!new)>(x: Keyed<K>, tail: seq<Keyed<K>>, keys: seq<(int, K)>, t: int)
    ensures GroupsAt(GroupsOf([x] + tail, keys), t)
         == Add(ContribAt(x, keys, t), GroupsAt(GroupsOf(tail, keys), t))
  {
    var rows := [x] + tail;
    assert rows[0] == x && rows[1..] == tail;
    if keys == [] {
      AddZero(Zero());
    } else {
      var d := keys[0];
      SplitFirstRow(x, tail, keys[1..], t);
      assert GroupsOf(rows, keys) == [Group(d.0, d.1, SumWhere(rows, d.0, d.1))] + GroupsOf(rows, keys[1..]);
      assert GroupsOf(tail, keys) == [Group(d.0, d.1, SumWhere(tail, d.0, d.1))] + GroupsOf(tail, keys[1..]);
      assert (GroupsOf(rows, keys))[1..] == GroupsOf(rows, keys[1..]);
      assert (GroupsOf(tail, keys))[1..] == GroupsOf(tail, keys[1..]);
      if d.0 == t {
        AddSwapMiddle(Contrib(x, d.0, d.1), SumWhere(tail, d.0, d.1),
                      ContribAt(x, keys[1..], t), GroupsAt(GroupsOf(tail, keys[1..]), t));
      } else {
        AddZero(Zero());
        AddSwapMiddle(Zero(), Zero(), ContribAt(x, keys[1..], t), GroupsAt(GroupsOf(tail, keys[1..]), t));
      }
    }
  }

  lemma {:induction false} ContribAtAbsent<K(!new)>(x: Keyed<K>, keys: seq<(int, K)>, t: int)
    requires x.key.None? || (x.timestamp, x.key.value) !in keys
    ensures ContribAt(x, keys, t) == Zero()
  {
    if keys != [] {
      ContribAtAbsent(x, keys[1..], t);
      AddZero(Zero());
    }
  }

  lemma {:induction false} ContribAtExact<K(!new)>(x: Keyed<K>, keys: seq<(int, K)>, t: int)
    requires NoDup(keys)
    requires x.timestamp == t && x.key.Some? ==> (t, x.key.value) in keys
    ensures ContribAt(x, keys, t) == (if x.timestamp == t && x.key.Some? then x.m else Zero())
  {
    if keys != [] {
      var d := keys[0];
      assert NoDup(keys[1..]);
      if x.key.Some? && d == (x.timestamp, x.key.value) && d.0 == t {
        assert (x.timestamp, x.key.value) !in keys[1..];
        ContribAtAbsent(x, keys[1..], t);
        AddZero(x.m);
      } else {
        ContribAtExact(x, keys[1..], t);
        AddZero(ContribAt(x, keys[1..], t));
      }
    } else {
      assert !(x.timestamp == t && x.key.Some?);
    }
  }

  lemma {:induction false} GroupsConserve<K(!new)>(rows: seq<Keyed<K>>, keys: seq<(int, K)>, t: int)
    requires NoDup(keys)
    requires forall i :: 0 <= i < |rows| && rows[i].timestamp == t && rows[i].key.Some? ==>
      (t, rows[i].key.value) in keys
    ensures GroupsAt(GroupsOf(rows, keys), t) == RowsAt(rows, t)
  {
    if rows == [] {
      ZeroGroups(keys, t);
    } else {
      var x, tail := rows[0], rows[1..];
      assert rows == [x] + tail;
      assert forall i :: 0 <= i < |tail| ==> tail[i] == rows[i + 1];
      GroupsConserve(tail, keys, t);
      SplitFirstRow(x, tail, keys, t);
      ContribAtExact(x, keys, t);
    }
  }

  lemma {:induction false} ZeroGroups<K(!new)>(keys: seq<(int, K)>, t: int)
    ensures GroupsAt(GroupsOf([], keys), t) == Zero()
  {
    if keys != [] {
      ZeroGroups(keys[1..], t);
      assert GroupsOf([], keys)[1..] == GroupsOf([], keys[1..]);
      AddZero(Zero());
    }
  }

  /**
   * Summing by group loses nothing and invents nothing: at every timestamp the groups add up
   * to the keyed rows of that timestamp (rows without a key are the only ones dropped).
   */
  lemma GroupBySumConserves<K(!new)>(rows: seq<Keyed<K>>, t: int)
    ensures GroupsAt(GroupBySum(rows), t) == RowsAt(rows, t)
  {
    var keys := Distinct(PresentKeys(rows));
    forall i | 0 <= i < |rows| && rows[i].timestamp == t && rows[i].key.Some?
      ensures (t, rows[i].key.value) in keys
    {
      assert Occurs(rows, t, rows[i].key.value);
    }
    GroupsConserve(rows, keys, t);
  }

  // ---------------------------------------------------------------- idxmax

  /** Index `i` is what `idxmax` picks for its key: a maximum, and strictly above every earlier row of the key. */
  predicate IsFirstMax<K(==,!new)>(keys: seq<K>, vals: seq<real>, i: int)
    requires |keys| == |vals|
  {
    0 <= i < |keys| &&
    (forall j :: 0 <= j < |keys| && keys[j] == keys[i] ==> vals[j] <= vals[i]) &&
    (forall j :: 0 <= j < i && keys[j] == keys[i] ==> vals[j] < vals[i])
  }

  /** The position of the first largest value among the rows whose key is `k`. */
  function FirstMax<K(==,!new)>(keys: seq<K>, vals: seq<real>, k: K): (i: nat)
    requires |keys| == |vals| && k in keys
    ensures i < |keys| && keys[i] == k && IsFirstMax(keys, vals, i)
    decreases |keys|
  {
    var n := |keys| - 1;
    assert keys == keys[..n] + [keys[n]];
    if keys[n] != k then FirstMax(keys[..n], vals[..n], k)
    else if k !in keys[..n] then n
    else
      var b := FirstMax(keys[..n], vals[..n], k);
      if vals[n] > vals[b] then n else b
  }

  /** `groupby(key)[vals].idxmax()`: the first-maximum position of every distinct key, in first-appearance order. */
  function GroupArgMax<K(==,!new)>(keys: seq<K>, vals: seq<real>): (r: seq<nat>)
    requires |keys| == |vals|
    ensures forall i :: 0 <= i < |r| ==> r[i] < |keys|
    ensures forall i :: 0 <= i < |r| ==> IsFirstMax(keys, vals, r[i])
    ensures forall i, j :: 0 <= i < j < |r| ==> keys[r[i]] != keys[r[j]]
    ensures forall k :: k in keys <==> exists i :: 0 <= i < |r| && keys[r[i]] == k
  {
    var ks := Distinct(keys);
    var r := seq(|ks|, i requires 0 <= i < |ks| => FirstMax(keys, vals, ks[i]));
    PositionsOfDistinct(keys, ks, r);
    r
  }

  /** Positions of the distinct keys, one each, name every key once. */
  lemma PositionsOfDistinct<K(!new)>(keys: seq<K>, ks: seq<K>, r: seq<nat>)
    requires NoDup(ks) && forall k :: k in ks <==> k in keys
    requires |r| == |ks| && forall i :: 0 <= i < |r| ==> r[i] < |keys| && keys[r[i]] == ks[i]
    ensures forall i, j :: 0 <= i < j < |r| ==> keys[r[i]] != keys[r[j]]
    ensures forall k :: k in keys <==> exists i :: 0 <= i < |r| && keys[r[i]] == k
  {
    forall k | k in keys
      ensures exists i :: 0 <= i < |r| && keys[r[i]] == k
    {
      var i :| 0 <= i < |ks| && ks[i] == k;
      assert keys[r[i]] == k;
    }
  }
}
