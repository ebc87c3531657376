/** Relational building blocks over tables held as sequences of rows:
    selection, summation, inner join and grouping. Each recurses on the
    last row, so that facts about a prefix extend one row at a time. */
module Relational {

  /** The rows of `s` that satisfy `p`, in their original order
      (pandas boolean-mask selection). */
  function Filter<T(!new)>(s: seq<T>, p: T -> bool): (r: seq<T>)
    ensures |r| <= |s|
    ensures forall x :: x in r <==> x in s && p(x)
  {
    if |s| == 0 then []
    else
      var init, last := s[..|s| - 1], s[|s| - 1];
      assert s == init + [last];
      Filter(init, p) + (if p(last) then [last] else [])
  }

  /** The sum of `f` over the rows of `s`; never negative when no row's value is. */
  function SumBy<T>(s: seq<T>, f: T -> int): (total: int)
    ensures (forall x :: x in s ==> f(x) >= 0) ==> total >= 0
    decreases |s|
  {
    if |s| == 0 then 0 else SumBy(s[..|s| - 1], f) + f(s[|s| - 1])
  }

  /** The set of values `f` takes on the rows of `s` (a column's distinct values). */
  function Image<T(==), U>(s: seq<T>, f: T -> U): set<U>
  {
    set x | x in s :: f(x)
  }

  /** The positions of the rows of `s` that satisfy `p`. */
  function Indices<T>(s: seq<T>, p: T -> bool): set<int>
  {
    set i | 0 <= i < |s| && p(s[i])
  }

  /** Conjunction of two row predicates, as one predicate value. */
  function Both<T>(p: T -> bool, q: T -> bool): T -> bool
  {
    x => p(x) && q(x)
  }

  /** The pairs `(l, r)` with `r` a row of `right` whose key matches `l`'s, in `right`'s order. */
  function Matches<L(!new), R(!new), K(==)>(l: L, right: seq<R>, keyL: L -> K, keyR: R -> K): (m: seq<(L, R)>)
    ensures forall p :: p in m <==> p.0 == l && p.1 in right && keyL(l) == keyR(p.1)
  {
    if |right| == 0 then []
    else
      var init, last := right[..|right| - 1], right[|right| - 1];
      assert right == init + [last];
      Matches(l, init, keyL, keyR) + (if keyL(l) == keyR(last) then [(l, last)] else [])
  }

  /** Inner join of `left` and `right` on `keyL(l) == keyR(r)`: for each left row
      in order, its matching right rows in order (pandas `merge(how='inner')`). */
  function InnerJoin<L(!new), R(!new), K(==)>(left: seq<L>, right: seq<R>, keyL: L -> K, keyR: R -> K): (j: seq<(L, R)>)
    ensures forall p :: p in j <==> p.0 in left && p.1 in right && keyL(p.0) == keyR(p.1)
  {
    if |left| == 0 then []
    else
      var init, last := left[..|left| - 1], left[|left| - 1];
      assert left == init + [last];
      InnerJoin(init, right, keyL, keyR) + Matches(last, right, keyL, keyR)
  }

  /** The index pairs `(i, j)` whose rows match on the key and whose joined row satisfies `p`. */
  function MatchingPairs<L, R, K(==)>(left: seq<L>, right: seq<R>, keyL: L -> K, keyR: R -> K,
                                      p: ((L, R)) -> bool): set<(int, int)>
  {
    set i, j | 0 <= i < |left| && 0 <= j < |right| && keyL(left[i]) == keyR(right[j])
                 && p((left[i], right[j])) :: (i, j)
  }

  lemma {:induction false} FilterAppend<T(!new)>(a: seq<T>, b: seq<T>, p: T -> bool)
    ensures Filter(a + b, p) == Filter(a, p) + Filter(b, p)
    decreases |b|
  {
    if |b| == 0 {
      assert a + b == a;
    } else {
      var init, last := b[..|b| - 1], b[|b| - 1];
      assert b == init + [last];
      assert (a + b)[..|a + b| - 1] == a + init;
      FilterAppend(a, init, p);
    }
  }

  lemma {:induction false} SumByAppend<T>(a: seq<T>, b: seq<T>, f: T -> int)
    ensures SumBy(a + b, f) == SumBy(a, f) + SumBy(b, f)
    decreases |b|
  {
    if |b| == 0 {
      assert a + b == a;
    } else {
      var init := b[..|b| - 1];
      assert (a + b)[..|a + b| - 1] == a + init;
      SumByAppend(a, init, f);
    }
  }

  lemma {:induction false} FilterNone<T(!new)>(s: seq<T>, p: T -> bool)
    requires forall x :: x in s ==> !p(x)
    ensures Filter(s, p) == []
    decreases |s|
  {
    if |s| > 0 {
      FilterNone(s[..|s| - 1], p);
    }
  }

  /** Selecting by `p` and then by `q` selects by both at once. */
  lemma {:induction false} FilterFilter<T(!new)>(s: seq<T>, p: T -> bool, q: T -> bool)
    ensures Filter(Filter(s, p), q) == Filter(s, Both(p, q))
    decreases |s|
  {
    if |s| > 0 {
      var init, last := s[..|s| - 1], s[|s| - 1];
      FilterFilter(init, p, q);
      FilterAppend(Filter(init, p), if p(last) then [last] else [], q);
    }
  }

  lemma IndicesSnoc<T>(s: seq<T>, p: T -> bool)
    requires |s| > 0
    ensures Indices(s, p) == Indices(s[..|s| - 1], p) + (if p(s[|s| - 1]) then {|s| - 1} else {})
  {
    var init := s[..|s| - 1];
    forall i | 0 <= i < |init|
      ensures init[i] == s[i]
    {
    }
  }

  /** The number of selected rows is the number of indices whose row satisfies `p`. */
  lemma {:induction false} FilterCountByIndex<T(!new)>(s: seq<T>, p: T -> bool)
    ensures |Filter(s, p)| == |Indices(s, p)|
    decreases |s|
  {
    if |s| == 0 {
      assert Indices(s, p) == {};
    } else {
      var init, last := s[..|s| - 1], s[|s| - 1];
      FilterCountByIndex(init, p);
      IndicesSnoc(s, p);
      assert |init| !in Indices(init, p);
      assert |Filter(s, p)| == |Filter(init, p)| + (if p(last) then 1 else 0);
    }
  }

  /** A column has at most as many distinct values as the table has rows. */
  lemma {:induction false} ImageBound<T, U>(s: seq<T>, f: T -> U)
    ensures |Image(s, f)| <= |s|
    decreases |s|
  {
    if |s| > 0 {
      var init, last := s[..|s| - 1], s[|s| - 1];
      assert s == init + [last];
      ImageBound(init, f);
      assert Image(s, f) == Image(init, f) + {f(last)};
    }
  }

  lemma SubsetCardinality<T>(a: set<T>, b: set<T>)
    requires a <= b
    ensures |a| <= |b|
  {
    assert b == a + (b - a);
  }

  /** The index pairs `(i, j)` pairing left row `l`, at index `i`, with each right row it matches under `p`. */
  function RowPairs<L, R, K(==)>(l: L, right: seq<R>, keyL: L -> K, keyR: R -> K,
                                 p: ((L, R)) -> bool, i: int): set<(int, int)>
  {
    set j | 0 <= j < |right| && keyL(l) == keyR(right[j]) && p((l, right[j])) :: (i, j)
  }

  lemma RowPairsSnoc<L, R, K>(l: L, right: seq<R>, keyL: L -> K, keyR: R -> K,
                              p: ((L, R)) -> bool, i: int)
    requires |right| > 0
    ensures RowPairs(l, right, keyL, keyR, p, i)
         == RowPairs(l, right[..|right| - 1], keyL, keyR, p, i)
            + (if keyL(l) == keyR(right[|right| - 1]) && p((l, right[|right| - 1]))
               then {(i, |right| - 1)} else {})
  {
    var init := right[..|right| - 1];
    forall j | 0 <= j < |init|
      ensures init[j] == right[j]
    {
    }
  }

  lemma FilterSingleton<T(!new)>(x: T, p: T -> bool)
    ensures |Filter([x], p)| == if p(x) then 1 else 0
  {
    assert [x][..0] == [];
  }

  /** Extending `right` by one row extends the selected matches by at most that row. */
  lemma MatchesSnocCount<L(!new), R(!new), K>(l: L, right: seq<R>, keyL: L -> K, keyR: R -> K,
                                              p: ((L, R)) -> bool)
    requires |right| > 0
    ensures |Filter(Matches(l, right, keyL, keyR), p)|
         == |Filter(Matches(l, right[..|right| - 1], keyL, keyR), p)|
            + (if keyL(l) == keyR(right[|right| - 1]) && p((l, right[|right| - 1])) then 1 else 0)
  {
    var init, last := right[..|right| - 1], right[|right| - 1];
    var m := if keyL(l) == keyR(last) then [(l, last)] else [];
    assert Matches(l, right, keyL, keyR) == Matches(l, init, keyL, keyR) + m;
    FilterAppend(Matches(l, init, keyL, keyR), m, p);
    if keyL(l) == keyR(last) {
      FilterSingleton((l, last), p);
    }
  }

  /** The selected matches of one left row count the right indices that match and pass `p`. */
  lemma {:induction false} MatchesCount<L(!new), R(!new), K>(l: L, right: seq<R>, keyL: L -> K, keyR: R -> K,
                                                             p: ((L, R)) -> bool, i: int)
    ensures |Filter(Matches(l, right, keyL, keyR), p)| == |RowPairs(l, right, keyL, keyR, p, i)|
    decreases |right|
  {
    if |right| == 0 {
      assert RowPairs(l, right, keyL, keyR, p, i) == {};
    } else {
      var init := right[..|right| - 1];
      MatchesCount(l, init, keyL, keyR, p, i);
      RowPairsSnoc(l, right, keyL, keyR, p, i);
      MatchesSnocCount(l, right, keyL, keyR, p);
      assert (i, |init|) !in RowPairs(l, init, keyL, keyR, p, i);
    }
  }

  lemma MatchingPairsSnoc<L, R, K>(left: seq<L>, right: seq<R>, keyL: L -> K, keyR: R -> K,
                                   p: ((L, R)) -> bool)
    requires |left| > 0
    ensures MatchingPairs(left, right, keyL, keyR, p)
         == MatchingPairs(left[..|left| - 1], right, keyL, keyR, p)
            + RowPairs(left[|left| - 1], right, keyL, keyR, p, |left| - 1)
  {
    var init := left[..|left| - 1];
    forall i | 0 <= i < |init|
      ensures init[i] == left[i]
    {
    }
  }

  lemma MatchingPairsBelow<L, R, K>(left: seq<L>, right: seq<R>, keyL: L -> K, keyR: R -> K,
                                    p: ((L, R)) -> bool)
    ensures forall e :: e in MatchingPairs(left, right, keyL, keyR, p) ==> e.0 < |left|
  {
  }

  lemma JoinSnocCount<L(!new), R(!new), K>(left: seq<L>, right: seq<R>, keyL: L -> K, keyR: R -> K,
                                           p: ((L, R)) -> bool)
    requires |left| > 0
    ensures |Filter(InnerJoin(left, right, keyL, keyR), p)|
         == |Filter(InnerJoin(left[..|left| - 1], right, keyL, keyR), p)|
            + |Filter(Matches(left[|left| - 1], right, keyL, keyR), p)|
  {
    var init, last := left[..|left| - 1], left[|left| - 1];
    assert InnerJoin(left, right, keyL, keyR) == InnerJoin(init, right, keyL, keyR) + Matches(last, right, keyL, keyR);
    FilterAppend(InnerJoin(init, right, keyL, keyR), Matches(last, right, keyL, keyR), p);
  }

  /** The selected join has one row per matching index pair that passes `p`:
      it counts (left row, right row) combinations, not distinct left rows. */
  lemma {:induction false} JoinCount<L(!new), R(!new), K>(left: seq<L>, right: seq<R>, keyL: L -> K, keyR: R -> K,
                                                          p: ((L, R)) -> bool)
    ensures |Filter(InnerJoin(left, right, keyL, keyR), p)| == |MatchingPairs(left, right, keyL, keyR, p)|
    decreases |left|
  {
    if |left| == 0 {
      assert MatchingPairs(left, right, keyL, keyR, p) == {};
    } else {
      var init, last := left[..|left| - 1], left[|left| - 1];
      JoinCount(init, right, keyL, keyR, p);
      MatchesCount(last, right, keyL, keyR, p, |init|);
      JoinSnocCount(left, right, keyL, keyR, p);
      MatchingPairsSnoc(left, right, keyL, keyR, p);
      MatchingPairsBelow(init, right, keyL, keyR, p);
      assert MatchingPairs(init, right, keyL, keyR, p) !! RowPairs(last, right, keyL, keyR, p, |init|);
    }
  }

  /** The position of the first row satisfying `p`, or `|s|` when there is none. */
  function FirstIndex<T>(s: seq<T>, p: T -> bool): (i: nat)
    ensures i <= |s|
    ensures forall k :: 0 <= k < i ==> !p(s[k])
    ensures i < |s| ==> p(s[i])
  {
    if |s| == 0 then 0
    else if p(s[0]) then 0
    else 1 + FirstIndex(s[1..], p)
  }

  /** Rows whose key is `k`. */
  function KeyIs<T, K(==)>(key: T -> K, k: K): T -> bool
  {
    x => key(x) == k
  }

  /** The keys of a grouped table. */
  function GroupKeys<K>(g: seq<(K, int)>): set<K>
  {
    set e | e in g :: e.0
  }

  /** `g` is `rows` grouped by `key` with `val` summed per group: one entry per
      distinct key, holding the sum over exactly the rows with that key. */
  ghost predicate IsGroupSum<T(!new), K(!new)>(rows: seq<T>, key: T -> K, val: T -> int, g: seq<(K, int)>)
  {
    && (forall a, b :: 0 <= a < b < |g| ==> g[a].0 != g[b].0)
    && GroupKeys(g) == Image(rows, key)
    && (forall i :: 0 <= i < |g| ==> g[i].1 == SumBy(Filter(rows, KeyIs(key, g[i].0)), val))
  }

  /** Adds `v` to the group keyed `k`, opening that group at the end if it is new. */
  function AddToGroup<K(==)>(g: seq<(K, int)>, k: K, v: int): seq<(K, int)>
  {
    var i := FirstIndex(g, KeyIs(EntryKey, k));
    if i < |g| then g[i := (k, g[i].1 + v)] else g + [(k, v)]
  }

  /** `DataFrame.groupby(key)[val].sum()`: the per-key totals. pandas sorts the
      keys; this model lists them in order of first appearance, and the contract
      states no order at all. */
  function GroupSum<T(!new), K(==,!new)>(rows: seq<T>, key: T -> K, val: T -> int): (g: seq<(K, int)>)
    ensures IsGroupSum(rows, key, val, g)
  {
    if |rows| == 0 then
      assert Image(rows, key) == {};
      []
    else
      var init := rows[..|rows| - 1];
      var g := GroupSum(init, key, val);
      GroupSumStep(rows, key, val, g);
      AddToGroup(g, key(rows[|rows| - 1]), val(rows[|rows| - 1]))
  }

  lemma SumFilterSnoc<T(!new)>(rows: seq<T>, q: T -> bool, val: T -> int)
    requires |rows| > 0
    ensures SumBy(Filter(rows, q), val)
         == SumBy(Filter(rows[..|rows| - 1], q), val) + (if q(rows[|rows| - 1]) then val(rows[|rows| - 1]) else 0)
  {
    var init, last := rows[..|rows| - 1], rows[|rows| - 1];
    var tail := if q(last) then [last] else [];
    assert Filter(rows, q) == Filter(init, q) + tail;
    SumByAppend(Filter(init, q), tail, val);
    assert [last][..0] == [];
  }

  /** The key of a grouped entry. */
  function EntryKey<K>(e: (K, int)): K
  {
    e.0
  }

  lemma FirstIndexOfKey<K>(g: seq<(K, int)>, k: K)
    requires forall a, b :: 0 <= a < b < |g| ==> g[a].0 != g[b].0
    ensures var i := FirstIndex(g, KeyIs(EntryKey, k));
            (i < |g| ==> g[i].0 == k && forall j :: 0 <= j < |g| && j != i ==> g[j].0 != k)
            && (i == |g| ==> k !in GroupKeys(g))
  {
    var i := FirstIndex(g, KeyIs(EntryKey, k));
    if i == |g| {
      forall e | e in g
        ensures e.0 != k
      {
        var j :| 0 <= j < |g| && g[j] == e;
        assert j < i;
        assert !KeyIs(EntryKey, k)(g[j]);
        assert EntryKey(g[j]) == e.0;
      }
    }
  }

  lemma GroupStepSums<T(!new), K(!new)>(rows: seq<T>, key: T -> K, val: T -> int, g: seq<(K, int)>)
    requires |rows| > 0
    requires IsGroupSum(rows[..|rows| - 1], key, val, g)
    ensures var g' := AddToGroup(g, key(rows[|rows| - 1]), val(rows[|rows| - 1]));
            forall j :: 0 <= j < |g'| ==> g'[j].1 == SumBy(Filter(rows, KeyIs(key, g'[j].0)), val)
  {
    var g' := AddToGroup(g, key(rows[|rows| - 1]), val(rows[|rows| - 1]));
    forall j | 0 <= j < |g'|
      ensures g'[j].1 == SumBy(Filter(rows, KeyIs(key, g'[j].0)), val)
    {
      GroupEntryStep(rows, key, val, g, j);
    }
  }

  /** Entry `j` of the grouping after the last row is added holds its key's total. */
  lemma GroupEntryStep<T(!new), K(!new)>(rows: seq<T>, key: T -> K, val: T -> int, g: seq<(K, int)>, j: int)
    requires |rows| > 0
    requires IsGroupSum(rows[..|rows| - 1], key, val, g)
    requires 0 <= j < |AddToGroup(g, key(rows[|rows| - 1]), val(rows[|rows| - 1]))|
    ensures var g' := AddToGroup(g, key(rows[|rows| - 1]), val(rows[|rows| - 1]));
            g'[j].1 == SumBy(Filter(rows, KeyIs(key, g'[j].0)), val)
  {
    var init, last := rows[..|rows| - 1], rows[|rows| - 1];
    var k, v := key(last), val(last);
    var g' := AddToGroup(g, k, v);
    var i := FirstIndex(g, KeyIs(EntryKey, k));
    FirstIndexOfKey(g, k);
    SumFilterSnoc(rows, KeyIs(key, g'[j].0), val);
    if i == |g| && j == |g| {
      forall x | x in init
        ensures !KeyIs(key, k)(x)
      {
        assert key(x) in Image(init, key);
      }
      FilterNone(init, KeyIs(key, k));
    }
  }

  lemma UpdateKeepsKeys<K>(g: seq<(K, int)>, i: int, e: (K, int))
    requires 0 <= i < |g| && e.0 == g[i].0
    ensures GroupKeys(g[i := e]) == GroupKeys(g)
    ensures forall j :: 0 <= j < |g| ==> g[i := e][j].0 == g[j].0
  {
    var g' := g[i := e];
    forall x | x in GroupKeys(g)
      ensures x in GroupKeys(g')
    {
      var d :| d in g && d.0 == x;
      var j :| 0 <= j < |g| && g[j] == d;
      assert g'[j] in g';
    }
    forall x | x in GroupKeys(g')
      ensures x in GroupKeys(g)
    {
      var d :| d in g' && d.0 == x;
      var j :| 0 <= j < |g'| && g'[j] == d;
      assert g[j] in g;
    }
  }

  lemma AppendAddsKey<K>(g: seq<(K, int)>, e: (K, int))
    ensures GroupKeys(g + [e]) == GroupKeys(g) + {e.0}
  {
    assert (g + [e])[|g|] == e;
  }

  lemma ImageSnoc<T, U>(s: seq<T>, f: T -> U)
    requires |s| > 0
    ensures Image(s, f) == Image(s[..|s| - 1], f) + {f(s[|s| - 1])}
  {
    assert s == s[..|s| - 1] + [s[|s| - 1]];
  }

  lemma GroupStepKeys<T, K>(rows: seq<T>, key: T -> K, val: T -> int, g: seq<(K, int)>)
    requires |rows| > 0
    requires forall a, b :: 0 <= a < b < |g| ==> g[a].0 != g[b].0
    requires GroupKeys(g) == Image(rows[..|rows| - 1], key)
    ensures var g' := AddToGroup(g, key(rows[|rows| - 1]), val(rows[|rows| - 1]));
            && (forall a, b :: 0 <= a < b < |g'| ==> g'[a].0 != g'[b].0)
            && GroupKeys(g') == Image(rows, key)
  {
    var init, last := rows[..|rows| - 1], rows[|rows| - 1];
    var k, v := key(last), val(last);
    var i := FirstIndex(g, KeyIs(EntryKey, k));
    FirstIndexOfKey(g, k);
    ImageSnoc(rows, key);
    if i < |g| {
      UpdateKeepsKeys(g, i, (k, g[i].1 + v));
      assert g[i] in g;
    } else {
      AppendAddsKey(g, (k, v));
    }
  }

  lemma GroupSumStep<T(!new), K(!new)>(rows: seq<T>, key: T -> K, val: T -> int, g: seq<(K, int)>)
    requires |rows| > 0
    requires IsGroupSum(rows[..|rows| - 1], key, val, g)
    ensures IsGroupSum(rows, key, val, AddToGroup(g, key(rows[|rows| - 1]), val(rows[|rows| - 1])))
  {
    GroupStepSums(rows, key, val, g);
    GroupStepKeys(rows, key, val, g);
  }

  /** A grouped table with distinct keys has one entry per key. */
  lemma {:induction false} DistinctKeysCount<K>(g: seq<(K, int)>)
    requires forall a, b :: 0 <= a < b < |g| ==> g[a].0 != g[b].0
    ensures |GroupKeys(g)| == |g|
    decreases |g|
  {
    if |g| > 0 {
      var init, last := g[..|g| - 1], g[|g| - 1];
      DistinctKeysCount(init);
      assert g == init + [last];
      AppendAddsKey(init, last);
      forall e | e in init
        ensures e.0 != last.0
      {
        var j :| 0 <= j < |init| && init[j] == e;
        assert g[j] == e;
      }
    }
  }

  /** A grouping of rows that all share key `k` has exactly one group, keyed `k`. */
  lemma GroupOfOneKey<K>(g: seq<(K, int)>, k: K)
    requires forall a, b :: 0 <= a < b < |g| ==> g[a].0 != g[b].0
    requires GroupKeys(g) == {k}
    ensures |g| == 1 && g[0].0 == k
  {
    DistinctKeysCount(g);
    assert g[0] in g;
  }
}
