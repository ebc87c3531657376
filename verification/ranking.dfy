/** Selecting the highest-scoring rows of a table, as `DataFrame.nlargest(k, col)`
    does with its default `keep='first'`. */
module Ranking {

  /** The smaller of two bounds (how many rows `nlargest` can return). */
  function Min(a: int, b: int): int
  {
    if a <= b then a else b
  }

  /** The position of the first row with the highest score. */
  function ArgMax<T>(s: seq<T>, score: T -> int): (i: nat)
    requires |s| > 0
    ensures i < |s|
    ensures forall j :: 0 <= j < |s| ==> score(s[j]) <= score(s[i])
    ensures forall j :: 0 <= j < i ==> score(s[j]) < score(s[i])
  {
    if |s| == 1 then 0
    else
      var k := 1 + ArgMax(s[1..], score);
      if score(s[0]) >= score(s[k]) then 0 else k
  }

  /** The selection properties of `TopK`, for `r` drawn from `s`. */
  ghost predicate IsTopSelection<T(!new)>(s: seq<T>, r: seq<T>, score: T -> int)
  {
    && multiset(r) <= multiset(s)
    && (forall i, j :: 0 <= i < j < |r| ==> score(r[i]) >= score(r[j]))
    && (forall x, i :: x in multiset(s) - multiset(r) && 0 <= i < |r| ==> score(x) <= score(r[i]))
  }

  lemma MaxBoundsAll<T>(s: seq<T>, m: int, score: T -> int)
    requires 0 <= m < |s|
    requires forall j :: 0 <= j < |s| ==> score(s[j]) <= score(s[m])
    ensures forall x :: x in multiset(s) ==> score(x) <= score(s[m])
  {
    forall x | x in multiset(s)
      ensures score(x) <= score(s[m])
    {
      assert x in s;
      var j :| 0 <= j < |s| && s[j] == x;
    }
  }

  lemma RemoveAt<T>(s: seq<T>, m: int)
    requires 0 <= m < |s|
    ensures multiset(s) == multiset(s[..m] + s[m + 1..]) + multiset{s[m]}
  {
    assert s == s[..m] + [s[m]] + s[m + 1..];
  }

  lemma PrependSorted<T>(h: T, tail: seq<T>, score: T -> int)
    requires forall x :: x in tail ==> score(x) <= score(h)
    requires forall i, j :: 0 <= i < j < |tail| ==> score(tail[i]) >= score(tail[j])
    ensures forall i, j :: 0 <= i < j < |[h] + tail| ==> score(([h] + tail)[i]) >= score(([h] + tail)[j])
  {
    var r := [h] + tail;
    forall i, j | 0 <= i < j < |r|
      ensures score(r[i]) >= score(r[j])
    {
      if i > 0 {
        assert r[i] == tail[i - 1] && r[j] == tail[j - 1];
      } else {
        assert r[j] == tail[j - 1];
      }
    }
  }

  lemma PrependLeftover<T(!new)>(s: seq<T>, rest: seq<T>, h: T, tail: seq<T>, score: T -> int)
    requires multiset(s) == multiset(rest) + multiset{h}
    requires forall x :: x in multiset(s) ==> score(x) <= score(h)
    requires forall x, i :: x in multiset(rest) - multiset(tail) && 0 <= i < |tail| ==> score(x) <= score(tail[i])
    ensures forall x, i :: x in multiset(s) - multiset([h] + tail) && 0 <= i < |[h] + tail| ==> score(x) <= score(([h] + tail)[i])
  {
    var r := [h] + tail;
    assert multiset(r) == multiset(tail) + multiset{h};
    assert multiset(s) - multiset(r) == multiset(rest) - multiset(tail);
    forall x, i | x in multiset(s) - multiset(r) && 0 <= i < |r|
      ensures score(x) <= score(r[i])
    {
      if i > 0 {
        assert r[i] == tail[i - 1];
      }
    }
  }

  /** Putting a row that scores at least as high as every other row in front of
      a selection from the others gives a selection from the whole table. */
  lemma PrependMax<T(!new)>(s: seq<T>, rest: seq<T>, h: T, tail: seq<T>, score: T -> int)
    requires multiset(s) == multiset(rest) + multiset{h}
    requires forall x :: x in multiset(s) ==> score(x) <= score(h)
    requires IsTopSelection(rest, tail, score)
    ensures IsTopSelection(s, [h] + tail, score)
  {
    forall x | x in tail
      ensures score(x) <= score(h)
    {
      assert x in multiset(rest);
    }
    PrependSorted(h, tail, score);
    PrependLeftover(s, rest, h, tail, score);
    assert multiset([h] + tail) == multiset(tail) + multiset{h};
  }

  /** No row of `s` occurs twice. */
  predicate NoRepeats<T(==)>(s: seq<T>)
  {
    forall a, b :: 0 <= a < b < |s| ==> s[a] != s[b]
  }

  lemma WithoutRepeats<T>(s: seq<T>, m: int)
    requires 0 <= m < |s| && NoRepeats(s)
    ensures NoRepeats(s[..m] + s[m + 1..])
    ensures s[m] !in s[..m] + s[m + 1..]
  {
    var rest := s[..m] + s[m + 1..];
    forall c | 0 <= c < |rest|
      ensures rest[c] == s[if c < m then c else c + 1]
    {
    }
  }

  /** Putting a row in front of a repeat-free selection from rows that do not
      include it keeps it repeat-free. */
  lemma PrependFresh<T>(s: seq<T>, m: int, tail: seq<T>)
    requires 0 <= m < |s|
    requires multiset(tail) <= multiset(s[..m] + s[m + 1..])
    requires NoRepeats(s[..m] + s[m + 1..]) ==> NoRepeats(tail)
    ensures NoRepeats(s) ==> NoRepeats([s[m]] + tail)
  {
    if NoRepeats(s) {
      var rest := s[..m] + s[m + 1..];
      WithoutRepeats(s, m);
      assert s[m] !in multiset(rest);
      assert s[m] !in tail;
      var r := [s[m]] + tail;
      forall a, b | 0 <= a < b < |r|
        ensures r[a] != r[b]
      {
        assert r[b] == tail[b - 1];
        if a > 0 {
          assert r[a] == tail[a - 1];
        }
      }
    }
  }

  /** The `k` highest-scoring rows of `s`, highest first; among equal scores
      the earlier row is taken first. A table without repeated rows gives a
      selection without repeated rows. */
  function TopK<T(!new)>(s: seq<T>, k: nat, score: T -> int): (r: seq<T>)
    ensures |r| == Min(k, |s|)
    ensures IsTopSelection(s, r, score)
    ensures NoRepeats(s) ==> NoRepeats(r)
    decreases k
  {
    if k == 0 || |s| == 0 then []
    else
      var m := ArgMax(s, score);
      var rest := s[..m] + s[m + 1..];
      var tail := TopK(rest, k - 1, score);
      SelectFirstMax(s, m, tail, score);
      [s[m]] + tail
  }

  /** The first highest row in front of a top selection from the other rows
      is a top selection from the whole table, repeat-free when they are. */
  lemma SelectFirstMax<T(!new)>(s: seq<T>, m: nat, tail: seq<T>, score: T -> int)
    requires |s| > 0 && m == ArgMax(s, score)
    requires IsTopSelection(s[..m] + s[m + 1..], tail, score)
    requires NoRepeats(s[..m] + s[m + 1..]) ==> NoRepeats(tail)
    ensures IsTopSelection(s, [s[m]] + tail, score)
    ensures NoRepeats(s) ==> NoRepeats([s[m]] + tail)
  {
    RemoveAt(s, m);
    MaxBoundsAll(s, m, score);
    PrependMax(s, s[..m] + s[m + 1..], s[m], tail, score);
    PrependFresh(s, m, tail);
  }

  /** A sub-multiset as large as the whole is the whole. */
  lemma SubMultisetOfSameSize<T>(a: multiset<T>, b: multiset<T>)
    requires a <= b && |a| == |b|
    ensures a == b
  {
    assert |b - a| == |b| - |a|;
    assert b - a == multiset{};
    assert b == a + (b - a);
  }

  /** Asking for at least as many rows as the table has selects every row. */
  lemma TopKTakesAllWhenFew<T(!new)>(s: seq<T>, k: nat, score: T -> int)
    requires |s| <= k
    ensures multiset(TopK(s, k, score)) == multiset(s)
  {
    var r := TopK(s, k, score);
    SubMultisetOfSameSize(multiset(r), multiset(s));
  }
}
