/**
 * Score vectors, in-place masking, and top-k selection.
 *
 * A score vector has one entry per item index. Masking writes minus infinity over the
 * chosen indices; top-k is what `argsort(scores)[::-1][:k]` may return. That expression
 * sorts ascending and reverses, so the order among equal scores is not fixed, and the
 * specification `IsTopK` leaves it open.
 */
module Ranking {
  import opened Basics

  /** One item's score; `NegInf` is the minus infinity written over masked items. */
  datatype Score = NegInf | Finite(v: real)

  /** The order on scores: minus infinity lies below every finite score. */
  predicate Le(a: Score, b: Score)
  {
    match a
    case NegInf => true
    case Finite(x) => b.Finite? && x <= b.v
  }

  /** A dense matrix: every row holds `width` reals, as in a two-dimensional numpy array. */
  datatype Matrix = Matrix(width: nat, rows: seq<seq<real>>)

  predicate Rectangular(m: Matrix)
  {
    forall i :: 0 <= i < |m.rows| ==> |m.rows[i]| == m.width
  }

  function Dot(u: seq<real>, v: seq<real>): real
    requires |u| == |v|
    decreases |u|
  {
    if u == [] then 0.0 else u[0] * v[0] + Dot(u[1..], v[1..])
  }

  /** `items.dot(u)`: one finite score per row. */
  function DotScores(items: Matrix, u: seq<real>): (r: seq<Score>)
    requires Rectangular(items) && |u| == items.width
    ensures |r| == |items.rows|
    ensures forall i :: 0 <= i < |r| ==> r[i].Finite?
  {
    seq(|items.rows|, i requires 0 <= i < |items.rows| => Finite(Dot(items.rows[i], u)))
  }

  function ColumnSum(m: Matrix, sel: seq<nat>, j: nat): real
    requires Rectangular(m) && j < m.width
    requires forall t :: 0 <= t < |sel| ==> sel[t] < |m.rows|
  {
    if sel == [] then 0.0 else m.rows[sel[0]][j] + ColumnSum(m, sel[1..], j)
  }

  /** `np.mean(m[sel], axis=0)`: the average of the selected rows, column by column. */
  function MeanRow(m: Matrix, sel: seq<nat>): (r: seq<real>)
    requires Rectangular(m) && |sel| > 0
    requires forall t :: 0 <= t < |sel| ==> sel[t] < |m.rows|
    ensures |r| == m.width
  {
    seq(m.width, j requires 0 <= j < m.width => ColumnSum(m, sel, j) / (|sel| as real))
  }

  /** The score vector after `s[idx] = -inf`. */
  function Masked(s: seq<Score>, idx: seq<nat>): (r: seq<Score>)
    ensures |r| == |s|
  {
    seq(|s|, i requires 0 <= i < |s| => if i in idx then NegInf else s[i])
  }

  /** After masking, an entry is minus infinity exactly when it was masked or already was. */
  lemma MaskedAt(s: seq<Score>, idx: seq<nat>, i: nat)
    requires i < |s|
    ensures Masked(s, idx)[i].NegInf? <==> i in idx || s[i].NegInf?
    ensures i !in idx ==> Masked(s, idx)[i] == s[i]
  {
  }

  /**
   * Writes minus infinity over every index of `idx`, as `scores[idx] = -inf` does; an index
   * outside the array is the IndexError of the source, reported as `ok == false`.
   */
  method MaskIndices(a: array<Score>, idx: seq<nat>) returns (ok: bool)
    modifies a
    ensures ok <==> forall t :: 0 <= t < |idx| ==> idx[t] < a.Length
    ensures ok ==> a[..] == Masked(old(a[..]), idx)
  {
    var j := 0;
    while j < |idx|
      invariant 0 <= j <= |idx|
      invariant forall t :: 0 <= t < j ==> idx[t] < a.Length
      invariant a[..] == Masked(old(a[..]), idx[..j])
    {
      if idx[j] >= a.Length {
        return false;
      }
      ghost var before := a[..];
      a[idx[j]] := NegInf;
      forall i | 0 <= i < a.Length
        ensures a[..][i] == Masked(old(a[..]), idx[..j + 1])[i]
      {
        assert i in idx[..j + 1] <==> i in idx[..j] || i == idx[j];
      }
      j := j + 1;
    }
    assert idx[..j] == idx;
    return true;
  }

  /** The items at the positions of `r` are in non-increasing score order. */
  predicate NonIncreasing(s: seq<Score>, r: seq<nat>)
    requires forall t :: 0 <= t < |r| ==> r[t] < |s|
  {
    forall i, j :: 0 <= i < j < |r| ==> Le(s[r[j]], s[r[i]])
  }

  /**
   * `r` is a possible value of `argsort(s)[::-1][:k]`: `min(k, |s|)` distinct indices in
   * non-increasing score order, and no index left out scores above one taken.
   */
  predicate IsTopK(s: seq<Score>, k: nat, r: seq<nat>)
  {
    && |r| == Min(k, |s|)
    && (forall t :: 0 <= t < |r| ==> r[t] < |s|)
    && Distinct(r)
    && NonIncreasing(s, r)
    && (forall x, t :: 0 <= x < |s| && x !in r && 0 <= t < |r| ==> Le(s[x], s[r[t]]))
  }

  /** A best-scoring index below `n` outside `excl`, `None` when every such index is excluded. */
  function BestBelow(s: seq<Score>, excl: seq<nat>, n: nat): (r: Option<nat>)
    requires n <= |s|
    ensures r.None? ==> forall i :: 0 <= i < n ==> i in excl
    ensures r.Some? ==> r.value < n && r.value !in excl
    ensures r.Some? ==> forall i :: 0 <= i < n && i !in excl ==> Le(s[i], s[r.value])
  {
    if n == 0 then None
    else
      var b := BestBelow(s, excl, n - 1);
      if n - 1 in excl then b
      else if b.None? then Some(n - 1)
      else if Le(s[n - 1], s[b.value]) then b
      else Some(n - 1)
  }

  /** Greedy selection: each step appends a best-scoring index not yet taken, `k` steps at most. */
  function Select(s: seq<Score>, k: nat): (r: seq<nat>)
    ensures |r| <= k
    ensures forall t :: 0 <= t < |r| ==> r[t] < |s|
  {
    if k == 0 then []
    else
      var r := Select(s, k - 1);
      match BestBelow(s, r, |s|)
      case None => r
      case Some(b) => r + [b]
  }

  /** Every taken index scores at least as high as any index not taken before it. */
  predicate Greedy(s: seq<Score>, r: seq<nat>)
    requires forall t :: 0 <= t < |r| ==> r[t] < |s|
  {
    forall x, t :: 0 <= x < |s| && 0 <= t < |r| && x !in r[..t] ==> Le(s[x], s[r[t]])
  }

  lemma {:induction false} SelectDistinct(s: seq<Score>, k: nat)
    ensures Distinct(Select(s, k))
  {
    if k > 0 {
      var r := Select(s, k - 1);
      SelectDistinct(s, k - 1);
      match BestBelow(s, r, |s|)
      case None =>
      case Some(b) =>
        var r2 := r + [b];
        assert Select(s, k) == r2;
        forall i, j | 0 <= i < j < |r2| ensures r2[i] != r2[j] {
          if j == |r| {
            assert r2[i] == r[i];
          }
        }
    }
  }

  lemma {:induction false} SelectGreedy(s: seq<Score>, k: nat)
    ensures Greedy(s, Select(s, k))
  {
    if k > 0 {
      var r := Select(s, k - 1);
      SelectGreedy(s, k - 1);
      match BestBelow(s, r, |s|)
      case None =>
      case Some(b) =>
        var r2 := r + [b];
        assert Select(s, k) == r2;
        forall x, t | 0 <= x < |s| && 0 <= t < |r2| && x !in r2[..t] ensures Le(s[x], s[r2[t]]) {
          if t == |r| {
            assert r2[..t] == r;
          } else {
            assert r2[..t] == r[..t];
          }
        }
    }
  }

  /** The indices below `n`. */
  function Range(n: nat): (r: set<nat>)
    ensures forall i: nat :: i in r <==> i < n
    ensures |r| == n
  {
    if n == 0 then {}
    else
      var front := Range(n - 1);
      assert n - 1 !in front;
      front + {n - 1}
  }

  /** Distinct indices below `n` number at most `n`, and exactly `n` when they cover every index below `n`. */
  lemma Pigeonhole(r: seq<nat>, n: nat)
    requires Distinct(r) && forall t :: 0 <= t < |r| ==> r[t] < n
    ensures |r| <= n
    ensures |r| == n <==> forall i: nat :: i < n ==> i in r
  {
    var taken := set x | x in r;
    DistinctCardinality(r);
    assert taken <= Range(n);
    SubsetCardinality(taken, Range(n));
    if forall i: nat :: i < n ==> i in r {
      assert Range(n) <= taken;
      SubsetCardinality(Range(n), taken);
    } else {
      var i: nat :| i < n && i !in r;
      assert taken <= Range(n) - {i};
      SubsetCardinality(taken, Range(n) - {i});
    }
  }

  /** Selection stops short only once every index is taken. */
  lemma {:induction false} SelectLength(s: seq<Score>, k: nat)
    ensures |Select(s, k)| == Min(k, |s|)
  {
    if k > 0 {
      SelectLength(s, k - 1);
      SelectDistinct(s, k - 1);
      var r := Select(s, k - 1);
      Pigeonhole(r, |s|);
      match BestBelow(s, r, |s|)
      case None =>
        assert Select(s, k) == r;
      case Some(b) =>
        assert Select(s, k) == r + [b];
    }
  }

  /** One value of `argsort(s)[::-1][:k]`; which one among equal scores is not specified. */
  function TopK(s: seq<Score>, k: nat): (r: seq<nat>)
    ensures IsTopK(s, k, r)
  {
    var r := Select(s, k);
    SelectDistinct(s, k);
    SelectGreedy(s, k);
    SelectLength(s, k);
    assert NonIncreasing(s, r) by {
      forall i, j | 0 <= i < j < |r| ensures Le(s[r[j]], s[r[i]]) {
        assert r[j] !in r[..i];
      }
    }
    assert forall x, t :: 0 <= x < |s| && x !in r && 0 <= t < |r| ==> Le(s[x], s[r[t]]) by {
      forall x, t | 0 <= x < |s| && x !in r && 0 <= t < |r| ensures Le(s[x], s[r[t]]) {
        assert x !in r[..t];
      }
    }
    r
  }

  /** The indices whose score is not minus infinity. */
  function Unmasked(s: seq<Score>): set<nat>
  {
    set i: nat | i < |s| && s[i].Finite?
  }

  /** A masked item is taken only when every unmasked item has been taken before it. */
  lemma MaskedOnlyWhenExhausted(s: seq<Score>, k: nat, r: seq<nat>, j: nat)
    requires IsTopK(s, k, r) && j < |r| && s[r[j]].NegInf?
    ensures forall x :: x in Unmasked(s) ==> x in r
  {
  }

  lemma SubsetCardinality<T>(a: set<T>, b: set<T>)
    requires a <= b
    ensures |a| <= |b|
  {
    assert b == a + (b - a);
  }

  /**
   * When at least `k` items are unmasked, the top `k` contains no masked item; with fewer,
   * argsort pads the result with masked items.
   */
  lemma NoMaskedWhenEnough(s: seq<Score>, k: nat, r: seq<nat>)
    requires IsTopK(s, k, r) && |Unmasked(s)| >= k
    ensures forall t :: 0 <= t < |r| ==> s[r[t]].Finite?
  {
    forall t | 0 <= t < |r| ensures s[r[t]].Finite? {
      if s[r[t]].NegInf? {
        MaskedOnlyWhenExhausted(s, k, r, t);
        var taken := set x | x in r;
        DistinctCardinality(r);
        assert Unmasked(s) <= taken - {r[t]};
        SubsetCardinality(Unmasked(s), taken - {r[t]});
        assert false;
      }
    }
  }

  /**
   * Masking does not keep items out of the top `k` when fewer than `min(k, N)` items are
   * unmasked: every unmasked item is taken, and masked items fill the rest.
   */
  lemma MaskedFillShortfall(s: seq<Score>, k: nat, r: seq<nat>)
    requires IsTopK(s, k, r) && |Unmasked(s)| < Min(k, |s|)
    ensures forall x :: x in Unmasked(s) ==> x in r
    ensures exists t :: 0 <= t < |r| && s[r[t]].NegInf?
  {
    if forall t :: 0 <= t < |r| ==> s[r[t]].Finite? {
      var taken := set x | x in r;
      DistinctCardinality(r);
      assert taken <= Unmasked(s);
      SubsetCardinality(taken, Unmasked(s));
      assert false;
    }
    var t :| 0 <= t < |r| && s[r[t]].NegInf?;
    MaskedOnlyWhenExhausted(s, k, r, t);
  }
}
