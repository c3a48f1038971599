/**
 * Top-k selection over similarity scores: `similarities.argsort()[-k:][::-1]`.
 * Scores are supplied by the caller; position i is catalog row i.
 */
module Ranking {

  /** The number of recommendations the source asks for. */
  const TopCount: nat := 5

  function Min(a: nat, b: nat): nat {
    if a <= b then a else b
  }

  /** Every entry of `p` is a valid catalog position. */
  predicate InRange(p: seq<nat>, n: nat) {
    forall i :: 0 <= i < |p| ==> p[i] < n
  }

  /** No catalog position appears twice in `p`. */
  predicate Distinct(p: seq<nat>) {
    forall i, j :: 0 <= i < j < |p| ==> p[i] != p[j]
  }

  /** `p` lists positions from lowest to highest score. */
  predicate Ascending(scores: seq<real>, p: seq<nat>)
    requires InRange(p, |scores|)
  {
    forall i, j :: 0 <= i < j < |p| ==> scores[p[i]] <= scores[p[j]]
  }

  /** `p` lists positions from highest to lowest score. */
  predicate Descending(scores: seq<real>, p: seq<nat>)
    requires InRange(p, |scores|)
  {
    forall i, j :: 0 <= i < j < |p| ==> scores[p[i]] >= scores[p[j]]
  }

  /**
   * What NumPy's `argsort` promises: a permutation of the positions of
   * `scores` in ascending order of score. The order among equal scores is
   * left open, as NumPy's default sort is not stable.
   */
  predicate IsArgSort(scores: seq<real>, p: seq<nat>) {
    && |p| == |scores|
    && InRange(p, |scores|)
    && Distinct(p)
    && (forall j: nat :: j < |scores| ==> j in p)
    && Ascending(scores, p)
  }

  /**
   * What the selection promises: `min(k, N)` distinct valid positions, in
   * non-increasing order of score, and no position left out scores higher
   * than any position kept.
   */
  predicate IsTopK(scores: seq<real>, k: nat, t: seq<nat>) {
    && |t| == Min(k, |scores|)
    && InRange(t, |scores|)
    && Distinct(t)
    && Descending(scores, t)
    && (forall j, i :: 0 <= j < |scores| && j !in t && 0 <= i < |t| ==> scores[j] <= scores[t[i]])
  }

  lemma ConsAscending(scores: seq<real>, h: nat, rest: seq<nat>)
    requires h < |scores| && InRange(rest, |scores|) && Ascending(scores, rest)
    requires forall y :: y in rest ==> scores[h] <= scores[y]
    ensures Ascending(scores, [h] + rest)
  {
    var r := [h] + rest;
    forall i, j | 0 <= i < j < |r| ensures scores[r[i]] <= scores[r[j]] {
      if i == 0 {
        assert r[j] == rest[j - 1];
      } else {
        assert r[i] == rest[i - 1] && r[j] == rest[j - 1];
      }
    }
  }

  lemma ConsDistinct(h: nat, rest: seq<nat>)
    requires Distinct(rest) && h !in rest
    ensures Distinct([h] + rest)
  {
    var r := [h] + rest;
    forall i, j | 0 <= i < j < |r| ensures r[i] != r[j] {
      assert r[j] == rest[j - 1];
      if i > 0 {
        assert r[i] == rest[i - 1];
      }
    }
  }

  /** Inserts position `x` into `p` after every entry whose score is at most `x`'s. */
  function Insert(scores: seq<real>, p: seq<nat>, x: nat): (r: seq<nat>)
    requires x < |scores| && InRange(p, |scores|)
    ensures |r| == |p| + 1
    ensures forall y :: y in r <==> y in p || y == x
    ensures InRange(r, |scores|)
  {
    if p == [] then
      [x]
    else if scores[x] < scores[p[0]] then
      [x] + p
    else
      assert forall y :: y in p[1..] ==> y in p;
      [p[0]] + Insert(scores, p[1..], x)
  }

  /** Inserting a new position keeps the positions distinct. */
  lemma {:induction false} InsertDistinct(scores: seq<real>, p: seq<nat>, x: nat)
    requires x < |scores| && InRange(p, |scores|)
    requires Distinct(p) && x !in p
    ensures Distinct(Insert(scores, p, x))
  {
    if p == [] {
    } else if scores[x] < scores[p[0]] {
      ConsDistinct(x, p);
    } else {
      var tail := p[1..];
      assert Distinct(tail) && x !in tail && p[0] !in tail;
      InsertDistinct(scores, tail, x);
      ConsDistinct(p[0], Insert(scores, tail, x));
    }
  }

  /** Inserting a position into an ascending order keeps it ascending. */
  lemma {:induction false} InsertAscending(scores: seq<real>, p: seq<nat>, x: nat)
    requires x < |scores| && InRange(p, |scores|)
    requires Ascending(scores, p)
    ensures Ascending(scores, Insert(scores, p, x))
  {
    if p == [] {
    } else if scores[x] < scores[p[0]] {
      forall y | y in p ensures scores[x] <= scores[y] {
        var q :| 0 <= q < |p| && p[q] == y;
      }
      ConsAscending(scores, x, p);
    } else {
      var tail := p[1..];
      var rest := Insert(scores, tail, x);
      assert Ascending(scores, tail);
      InsertAscending(scores, tail, x);
      forall y | y in rest ensures scores[p[0]] <= scores[y] {
        if y in tail {
          var q :| 0 <= q < |tail| && tail[q] == y;
          assert p[q + 1] == y;
        }
      }
      ConsAscending(scores, p[0], rest);
    }
  }

  /** An ascending argsort of the first `n` positions of `scores`. */
  function ArgSortPrefix(scores: seq<real>, n: nat): (p: seq<nat>)
    requires n <= |scores|
    ensures |p| == n
    ensures forall y: nat :: y in p <==> y < n
    ensures InRange(p, |scores|)
    ensures Distinct(p)
    ensures Ascending(scores, p)
  {
    if n == 0 then
      []
    else
      var prev := ArgSortPrefix(scores, n - 1);
      var p := Insert(scores, prev, n - 1);
      assert forall y: nat :: y in p <==> y < n by {
        forall y: nat ensures y in p <==> y < n {
          assert y in p <==> y in prev || y == n - 1;
        }
      }
      InsertDistinct(scores, prev, n - 1);
      InsertAscending(scores, prev, n - 1);
      p
  }

  /**
   * `scores.argsort()`. This is one order NumPy may return (ties keep their
   * position order); every property below is proved for all orders that
   * satisfy `IsArgSort`, so none depends on this choice.
   */
  function ArgSort(scores: seq<real>): (p: seq<nat>)
    ensures IsArgSort(scores, p)
  {
    ArgSortPrefix(scores, |scores|)
  }

  /** Python's `s[::-1]`. */
  function Reverse(s: seq<nat>): (r: seq<nat>)
    ensures |r| == |s|
    ensures forall i :: 0 <= i < |s| ==> r[i] == s[|s| - 1 - i]
  {
    if s == [] then [] else Reverse(s[1..]) + [s[0]]
  }

  /**
   * `order[-k:][::-1]` for k >= 1: the last `min(k, |order|)` entries of
   * `order`, last one first.
   */
  function TopIndices(order: seq<nat>, k: nat): (t: seq<nat>)
    requires k >= 1
    ensures |t| == Min(k, |order|)
    ensures forall i :: 0 <= i < |t| ==> t[i] == order[|order| - 1 - i]
    ensures forall q :: |order| - |t| <= q < |order| ==> order[q] in t
  {
    var tail := order[|order| - Min(k, |order|)..];
    var t := Reverse(tail);
    assert forall i :: 0 <= i < |t| ==> t[i] == tail[|tail| - 1 - i];
    forall q | |order| - |t| <= q < |order| ensures order[q] in t {
      assert t[|order| - 1 - q] == order[q];
    }
    t
  }

  /** `t` lists the last `|t|` entries of `p`, last one first. */
  predicate ReversedTail(p: seq<nat>, t: seq<nat>) {
    && |t| <= |p|
    && (forall i :: 0 <= i < |t| ==> t[i] == p[|p| - 1 - i])
    && (forall q :: |p| - |t| <= q < |p| ==> p[q] in t)
  }

  /** A position left out of the reversed tail of an ascending order scores no higher than one kept. */
  lemma LeftOutScoresLower(scores: seq<real>, p: seq<nat>, t: seq<nat>, j: nat, i: nat)
    requires InRange(p, |scores|) && Ascending(scores, p) && ReversedTail(p, t)
    requires j in p && j !in t && i < |t|
    ensures scores[j] <= scores[t[i]]
  {
    var n, m := |p|, |t|;
    var q :| 0 <= q < n && p[q] == j;
    assert q < n - m;
    assert t[i] == p[n - 1 - i];
  }

  /** The reversed tail of a distinct ascending order is distinct and descending. */
  lemma ReversedTailOrdered(scores: seq<real>, p: seq<nat>, t: seq<nat>)
    requires InRange(p, |scores|) && Distinct(p) && Ascending(scores, p) && ReversedTail(p, t)
    ensures InRange(t, |scores|) && Distinct(t) && Descending(scores, t)
  {
    var n := |p|;
    forall i | 0 <= i < |t| ensures t[i] < |scores| {
      assert t[i] == p[n - 1 - i];
    }
    forall i, j | 0 <= i < j < |t| ensures t[i] != t[j] && scores[t[i]] >= scores[t[j]] {
      assert t[i] == p[n - 1 - i] && t[j] == p[n - 1 - j];
    }
  }

  /** Reversing the tail of any ascending argsort selects a top-k. */
  lemma TopIndicesOfArgSort(scores: seq<real>, p: seq<nat>, k: nat)
    requires IsArgSort(scores, p) && k >= 1
    ensures IsTopK(scores, k, TopIndices(p, k))
  {
    var t := TopIndices(p, k);
    assert ReversedTail(p, t);
    ReversedTailOrdered(scores, p, t);
    forall j, i | 0 <= j < |scores| && j !in t && 0 <= i < |t|
      ensures scores[j] <= scores[t[i]]
    {
      LeftOutScoresLower(scores, p, t, j, i);
    }
  }

  /** `argsort()[-k:][::-1]` on the scores. */
  function TopK(scores: seq<real>, k: nat): (t: seq<nat>)
    requires k >= 1
    ensures IsTopK(scores, k, t)
  {
    var p := ArgSort(scores);
    TopIndicesOfArgSort(scores, p, k);
    TopIndices(p, k)
  }

  /** The first position selected has the highest score in the catalog. */
  lemma TopKFirstIsMaximum(scores: seq<real>, k: nat, t: seq<nat>)
    requires IsTopK(scores, k, t) && k >= 1 && |scores| >= 1
    ensures |t| >= 1
    ensures forall j :: 0 <= j < |scores| ==> scores[j] <= scores[t[0]]
  {
    forall j | 0 <= j < |scores| ensures scores[j] <= scores[t[0]] {
      if j in t {
        var q :| 0 <= q < |t| && t[q] == j;
        if q > 0 {
          assert scores[t[0]] >= scores[t[q]];
        }
      }
    }
  }

  /** A position whose score beats every other one is ranked first. */
  lemma UniqueMaximumRanksFirst(scores: seq<real>, k: nat, t: seq<nat>, m: nat)
    requires IsTopK(scores, k, t) && k >= 1
    requires m < |scores|
    requires forall j :: 0 <= j < |scores| && j != m ==> scores[j] < scores[m]
    ensures |t| >= 1 && t[0] == m
  {
    TopKFirstIsMaximum(scores, k, t);
    assert scores[m] <= scores[t[0]];
  }

  /** Any prefix of a top-k list is itself ranked: valid, distinct, best first. */
  lemma TopKPrefix(scores: seq<real>, k: nat, t: seq<nat>, n: nat)
    requires IsTopK(scores, k, t) && n <= |t|
    ensures InRange(t[..n], |scores|) && Distinct(t[..n]) && Descending(scores, t[..n])
  {
    assert forall i :: 0 <= i < n ==> t[..n][i] == t[i];
  }

  /** The positions listed in `p`, as a set. */
  function Elems(p: seq<nat>): (e: set<nat>)
    ensures forall x :: x in e <==> x in p
  {
    set x | x in p
  }

  lemma {:induction false} ElemsCard(p: seq<nat>)
    ensures |Elems(p)| <= |p|
    ensures Distinct(p) ==> |Elems(p)| == |p|
  {
    if p != [] {
      ElemsCard(p[1..]);
      assert Elems(p) == {p[0]} + Elems(p[1..]);
      if Distinct(p) {
        assert Distinct(p[1..]);
        assert p[0] !in Elems(p[1..]);
      }
    }
  }

  lemma SubsetCard(small: set<nat>, big: set<nat>)
    requires small <= big
    ensures |small| <= |big|
  {
    assert big == small + (big - small);
    assert small * (big - small) == {};
  }

  /** Two top-k selections agree at every rank up to one direction. */
  lemma TopKScoreAtMost(scores: seq<real>, k: nat, a: seq<nat>, b: seq<nat>, i: nat)
    requires IsTopK(scores, k, a) && IsTopK(scores, k, b) && i < |a|
    ensures scores[a[i]] <= scores[b[i]]
  {
    if scores[a[i]] > scores[b[i]] {
      var v := scores[a[i]];
      // a[0..i] are i + 1 distinct positions scoring at least v, but only
      // b[..i], i positions, can score that high.
      var high := Elems(a[..i + 1]);
      var front := Elems(b[..i]);
      forall x | x in high ensures x in front {
        var q :| 0 <= q <= i && a[q] == x;
        assert scores[x] >= v;
        assert x in b;
        var q' :| 0 <= q' < |b| && b[q'] == x;
        assert q' < i;
        assert b[..i][q'] == x;
      }
      assert Distinct(a[..i + 1]);
      ElemsCard(a[..i + 1]);
      ElemsCard(b[..i]);
      SubsetCard(high, front);
    }
  }

  /**
   * The selection is determined up to ties: any two top-k selections list
   * the same scores in the same order.
   */
  lemma TopKScoresDetermined(scores: seq<real>, k: nat, a: seq<nat>, b: seq<nat>)
    requires IsTopK(scores, k, a) && IsTopK(scores, k, b)
    ensures |a| == |b|
    ensures forall i :: 0 <= i < |a| ==> scores[a[i]] == scores[b[i]]
  {
    forall i | 0 <= i < |a| ensures scores[a[i]] == scores[b[i]] {
      TopKScoreAtMost(scores, k, a, b, i);
      TopKScoreAtMost(scores, k, b, a, i);
    }
  }

  /** With no tied scores there is exactly one top-k selection. */
  lemma TopKUniqueWithoutTies(scores: seq<real>, k: nat, a: seq<nat>, b: seq<nat>)
    requires IsTopK(scores, k, a) && IsTopK(scores, k, b)
    requires forall i, j :: 0 <= i < j < |scores| ==> scores[i] != scores[j]
    ensures a == b
  {
    TopKScoresDetermined(scores, k, a, b);
  }
}
