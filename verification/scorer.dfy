/**
 * The weighted scorer `compute_weighted_hot` (main.py:232-262): each of the
 * click, scores and stow counts is min-max normalised over the candidates,
 * the weighted sum of the three is written into every candidate, and the
 * candidates are sorted by it in place. Arithmetic is exact (`real`).
 */
module WeightedScorer {
  import opened Prelude
  import opened Items
  import opened StableSort

  /** `(w_click, w_scores, w_stow)` */
  datatype Weights = Weights(click: real, scores: real, stow: real)

  function MinOf(s: seq<int>): (m: int)
    requires |s| > 0
    ensures m in s && forall x :: x in s ==> m <= x
  {
    if |s| == 1 then s[0]
    else
      var t := MinOf(s[1..]);
      assert forall x :: x in s ==> x == s[0] || x in s[1..];
      if s[0] <= t then s[0] else t
  }

  function MaxOf(s: seq<int>): (m: int)
    requires |s| > 0
    ensures m in s && forall x :: x in s ==> x <= m
  {
    if |s| == 1 then s[0]
    else
      var t := MaxOf(s[1..]);
      assert forall x :: x in s ==> x == s[0] || x in s[1..];
      if s[0] >= t then s[0] else t
  }

  /**
   * The inner `normalize`: `(v - min) / (max - min)` for each value, or 1.0
   * for every value when they are all equal. The source only calls it on a
   * non-empty list (`min` of an empty list raises).
   */
  function Normalize(arr: seq<int>): (r: seq<real>)
    requires |arr| > 0
    ensures |r| == |arr|
    ensures forall i :: 0 <= i < |r| ==> 0.0 <= r[i] <= 1.0
  {
    var mn, mx := MinOf(arr), MaxOf(arr);
    if mx == mn then seq(|arr|, _ => 1.0)
    else
      seq(|arr|, i requires 0 <= i < |arr| =>
        assert arr[i] in arr;
        Ratio(arr[i], mn, mx))
  }

  /** `(v - mn) / (mx - mn)` for `mn <= v <= mx`, which lies in [0, 1]. */
  function Ratio(v: int, mn: int, mx: int): (r: real)
    requires mn <= v <= mx && mn < mx
    ensures 0.0 <= r <= 1.0
  {
    var a, d := (v - mn) as real, (mx - mn) as real;
    assert a / d <= 1.0 by {
      assert a / d * d == a <= d;
    }
    a / d
  }

  function ClickOf(v: Video): int { v.click }
  function ScoresOf(v: Video): int { v.scores }
  function StowOf(v: Video): int { v.stow }

  /** One signal of every candidate, in order: `[c.get(field) for c in candidates]`. */
  function Column(vs: seq<Video>, f: Video -> int): (col: seq<int>)
    ensures |col| == |vs|
  {
    seq(|vs|, i requires 0 <= i < |vs| => f(vs[i]))
  }

  /** `n_click * w_click + n_scores * w_scores + n_stow * w_stow` (main.py:258). */
  function WeightedSum(nClick: real, nScores: real, nStow: real, w: Weights): real
  {
    nClick * w.click + nScores * w.scores + nStow * w.stow
  }

  /** `n_click`, `n_scores` and `n_stow` (main.py:251-253). */
  datatype Normalized = Normalized(click: seq<real>, scores: seq<real>, stow: seq<real>)

  function NormalizeAll(vs: seq<Video>): (n: Normalized)
    requires |vs| > 0
    ensures |n.click| == |n.scores| == |n.stow| == |vs|
  {
    Normalized(Normalize(Column(vs, ClickOf)), Normalize(Column(vs, ScoresOf)), Normalize(Column(vs, StowOf)))
  }

  /** The weighted score of candidate `i` (main.py:257-258). */
  function ScoreAt(vs: seq<Video>, w: Weights, i: int): real
    requires 0 <= i < |vs|
  {
    var n := NormalizeAll(vs);
    WeightedSum(n.click[i], n.scores[i], n.stow[i], w)
  }

  /** Every candidate with its weighted score attached and nothing else changed. */
  function WithScores(vs: seq<Video>, w: Weights): (r: seq<Video>)
    ensures |r| == |vs|
  {
    seq(|vs|, i requires 0 <= i < |vs| => WithScore(vs[i], ScoreAt(vs, w, i)))
  }

  /** `c['_weighted_score'] = score` */
  function WithScore(v: Video, score: real): Video
  {
    v.(weightedScore := Some(score))
  }

  /** The sort key: `x.get('_weighted_score', 0)`. */
  function ScoreKey(v: Video): real
  {
    match v.weightedScore
    case None => 0.0
    case Some(s) => s
  }

  /** What `compute_weighted_hot` returns. */
  function WeightedHot(vs: seq<Video>, w: Weights, topN: int): seq<Video>
  {
    if vs == [] then [] else Take(SortDesc(WithScores(vs, w), ScoreKey), topN)
  }

  /**
   * `compute_weighted_hot(candidates, weights, top_n)`: scores and sorts the
   * candidates in place and returns the first `topN`.
   */
  method ComputeWeightedHot(candidates: array<Video>, w: Weights, topN: int) returns (top: seq<Video>)
    modifies candidates
    ensures candidates[..] == SortDesc(WithScores(old(candidates[..]), w), ScoreKey)
    ensures top == Take(candidates[..], topN) == WeightedHot(old(candidates[..]), w, topN)
  {
    if candidates.Length == 0 {
      return [];
    }
    AttachScores(candidates, w);
    SortByScore(candidates);
    top := Take(candidates[..], topN);
  }

  /** The scoring loop (main.py:240-259): `c['_weighted_score'] = score` for every candidate. */
  method AttachScores(candidates: array<Video>, w: Weights)
    requires candidates.Length > 0
    modifies candidates
    ensures candidates[..] == WithScores(old(candidates[..]), w)
  {
    var original := candidates[..];
    var n := NormalizeAll(original);
    ghost var target := WithScores(original, w);
    for i := 0 to candidates.Length
      invariant forall k :: 0 <= k < i ==> candidates[k] == target[k]
      invariant forall k :: i <= k < candidates.Length ==> candidates[k] == original[k]
    {
      var score := WeightedSum(n.click[i], n.scores[i], n.stow[i], w);
      assert target[i] == WithScore(original[i], score) by {
        ScoredAt(original, w, i, score);
      }
      candidates[i] := WithScore(candidates[i], score);
    }
    assert candidates[..] == target by {
      forall k | 0 <= k < candidates.Length
        ensures candidates[..][k] == target[k]
      {
      }
    }
  }

  lemma ScoredAt(vs: seq<Video>, w: Weights, i: int, score: real)
    requires 0 <= i < |vs| && score == ScoreAt(vs, w, i)
    ensures WithScores(vs, w)[i] == WithScore(vs[i], score)
  {
  }

  /** `candidates.sort(key=score, reverse=True)` (main.py:261), in place. */
  method SortByScore(candidates: array<Video>)
    modifies candidates
    ensures candidates[..] == SortDesc(old(candidates[..]), ScoreKey)
  {
    var sorted := SortDesc(candidates[..], ScoreKey);
    SortDescPermutes(candidates[..], ScoreKey);
    assert |sorted| == |multiset(sorted)| == |multiset(candidates[..])| == candidates.Length;
    forall k | 0 <= k < candidates.Length {
      candidates[k] := sorted[k];
    }
    assert candidates[..] == sorted;
  }

  /** The scorer sets `_weighted_score` to the weighted sum and changes no other field. */
  lemma WithScoresChangesOnlyScore(vs: seq<Video>, w: Weights)
    ensures forall i :: 0 <= i < |vs| ==>
      var r := WithScores(vs, w)[i];
      r.weightedScore == Some(ScoreAt(vs, w, i))
      && r.title == vs[i].title && r.author == vs[i].author && r.pubdate == vs[i].pubdate
      && r.bvid == vs[i].bvid && r.play == vs[i].play && r.click == vs[i].click
      && r.scores == vs[i].scores && r.stow == vs[i].stow
  {
  }

  /** A dimension in which every candidate has the same value normalises to 1.0 throughout. */
  lemma NormalizeConstant(arr: seq<int>)
    requires |arr| > 0 && forall i :: 0 <= i < |arr| ==> arr[i] == arr[0]
    ensures forall i :: 0 <= i < |arr| ==> Normalize(arr)[i] == 1.0
  {
    var mn, mx := MinOf(arr), MaxOf(arr);
    assert mn == arr[0] && mx == arr[0];
  }

  /** Normalisation keeps the order of the values. */
  lemma NormalizeMonotone(arr: seq<int>, i: int, j: int)
    requires 0 <= i < |arr| && 0 <= j < |arr| && arr[i] <= arr[j]
    ensures Normalize(arr)[i] <= Normalize(arr)[j]
  {
    var mn, mx := MinOf(arr), MaxOf(arr);
    if mx != mn {
      assert arr[i] in arr && arr[j] in arr;
      var d := (mx - mn) as real;
      assert (arr[i] - mn) as real <= (arr[j] - mn) as real;
      DivMonotone((arr[i] - mn) as real, (arr[j] - mn) as real, d);
    }
  }

  lemma DivMonotone(a: real, b: real, d: real)
    requires a <= b && d > 0.0
    ensures a / d <= b / d
  {
  }

  /** Unless the dimension is constant, its least value maps to 0.0 and its greatest to 1.0. */
  lemma NormalizeExtremes(arr: seq<int>, i: int)
    requires 0 <= i < |arr| && MinOf(arr) != MaxOf(arr)
    ensures arr[i] == MinOf(arr) ==> Normalize(arr)[i] == 0.0
    ensures arr[i] == MaxOf(arr) ==> Normalize(arr)[i] == 1.0
  {
    var mn, mx := MinOf(arr), MaxOf(arr);
    assert arr[i] in arr;
    assert Normalize(arr)[i] == Ratio(arr[i], mn, mx);
    RatioEnds(mn, mx);
  }

  lemma RatioEnds(mn: int, mx: int)
    requires mn < mx
    ensures Ratio(mn, mn, mx) == 0.0 && Ratio(mx, mn, mx) == 1.0
  {
    var d := (mx - mn) as real;
    assert 0.0 / d == 0.0;
    assert d / d == 1.0;
  }

  /** With non-negative weights a score lies between 0 and the sum of the weights. */
  lemma ScoreBounds(vs: seq<Video>, w: Weights, i: int)
    requires 0 <= i < |vs| && w.click >= 0.0 && w.scores >= 0.0 && w.stow >= 0.0
    ensures 0.0 <= ScoreAt(vs, w, i) <= w.click + w.scores + w.stow
  {
    var n := NormalizeAll(vs);
    assert 0.0 <= n.click[i] <= 1.0 && 0.0 <= n.scores[i] <= 1.0 && 0.0 <= n.stow[i] <= 1.0;
    SumBounds(n.click[i], n.scores[i], n.stow[i], w);
  }

  lemma SumBounds(x: real, y: real, z: real, w: Weights)
    requires 0.0 <= x <= 1.0 && 0.0 <= y <= 1.0 && 0.0 <= z <= 1.0
    requires w.click >= 0.0 && w.scores >= 0.0 && w.stow >= 0.0
    ensures 0.0 <= WeightedSum(x, y, z, w) <= w.click + w.scores + w.stow
  {
    TermBounds(x * w.click, y * w.scores, z * w.stow, x, y, z, w);
  }

  /** The three weighted terms, named so that the final sum is linear in them. */
  lemma TermBounds(p: real, q: real, r: real, x: real, y: real, z: real, w: Weights)
    requires 0.0 <= x <= 1.0 && 0.0 <= y <= 1.0 && 0.0 <= z <= 1.0
    requires w.click >= 0.0 && w.scores >= 0.0 && w.stow >= 0.0
    requires p == x * w.click && q == y * w.scores && r == z * w.stow
    ensures 0.0 <= p + q + r <= w.click + w.scores + w.stow
  {
    ProductBounds(p, x, w.click);
    ProductBounds(q, y, w.scores);
    ProductBounds(r, z, w.stow);
  }

  lemma ProductBounds(p: real, x: real, c: real)
    requires p == x * c && 0.0 <= x <= 1.0 && c >= 0.0
    ensures 0.0 <= p <= c
  {
    ScaledBounds(x, c);
  }

  lemma ScaledBounds(x: real, c: real)
    requires 0.0 <= x <= 1.0 && c >= 0.0
    ensures 0.0 <= x * c <= c
  {
    assert x * c <= 1.0 * c;
  }

  /** Candidates that agree on click, scores and stow all score the sum of the weights. */
  lemma ConstantScores(vs: seq<Video>, w: Weights, i: int)
    requires 0 <= i < |vs|
    requires forall k :: 0 <= k < |vs| ==>
      vs[k].click == vs[0].click && vs[k].scores == vs[0].scores && vs[k].stow == vs[0].stow
    ensures ScoreAt(vs, w, i) == w.click + w.scores + w.stow
  {
    ColumnAt(vs, ClickOf);
    ColumnAt(vs, ScoresOf);
    ColumnAt(vs, StowOf);
    NormalizeConstant(Column(vs, ClickOf));
    NormalizeConstant(Column(vs, ScoresOf));
    NormalizeConstant(Column(vs, StowOf));
  }

  lemma ColumnAt(vs: seq<Video>, f: Video -> int)
    ensures forall i :: 0 <= i < |vs| ==> Column(vs, f)[i] == f(vs[i])
  {
  }

  /**
   * `compute_weighted_hot` returns the first `min(topN, |vs|)` candidates of
   * a stable permutation of the scored candidates in non-increasing score
   * order; nothing for no candidates.
   */
  lemma WeightedHotShape(vs: seq<Video>, w: Weights, topN: int)
    ensures var r := WeightedHot(vs, w, topN);
      && SortedDesc(r, ScoreKey)
      && (topN >= 0 ==> |r| == Min(topN, |vs|))
      && (vs == [] ==> r == [])
      && (forall x :: x in r ==> x in WithScores(vs, w))
      && r == SortDesc(WithScores(vs, w), ScoreKey)[..|r|]
  {
    var scored := WithScores(vs, w);
    var sorted := SortDesc(scored, ScoreKey);
    SortDescSorted(scored, ScoreKey);
    SortDescPermutes(scored, ScoreKey);
    assert |sorted| == |multiset(sorted)| == |multiset(scored)| == |vs|;
    forall x | x in WeightedHot(vs, w, topN)
      ensures x in scored
    {
      SortDescMembers(scored, ScoreKey, x);
    }
  }

  /** Normalisation keeps the order of the values in both directions. */
  lemma NormalizeOrder(arr: seq<int>, i: int, j: int)
    requires 0 <= i < |arr| && 0 <= j < |arr|
    ensures Normalize(arr)[i] <= Normalize(arr)[j] <==> arr[i] <= arr[j]
  {
    if arr[i] <= arr[j] {
      NormalizeMonotone(arr, i, j);
    } else {
      var mn, mx := MinOf(arr), MaxOf(arr);
      assert arr[i] in arr && arr[j] in arr;
      var d := (mx - mn) as real;
      DivStrict((arr[j] - mn) as real, (arr[i] - mn) as real, d);
    }
  }

  lemma DivStrict(a: real, b: real, d: real)
    requires a < b && d > 0.0
    ensures a / d < b / d
  {
  }

  /**
   * With all the weight on clicks, the scorer ranks by click: one candidate
   * scores at most another exactly when it has at most as many clicks.
   */
  lemma ClickOnlyRanking(vs: seq<Video>, w: Weights, i: int, j: int)
    requires 0 <= i < |vs| && 0 <= j < |vs|
    requires w.click > 0.0 && w.scores == 0.0 && w.stow == 0.0
    ensures ScoreAt(vs, w, i) <= ScoreAt(vs, w, j) <==> vs[i].click <= vs[j].click
  {
    var n := NormalizeAll(vs);
    ColumnAt(vs, ClickOf);
    NormalizeOrder(Column(vs, ClickOf), i, j);
    assert n.click[i] <= n.click[j] <==> vs[i].click <= vs[j].click;
    ClickOnlyOrder(n.click[i], n.scores[i], n.stow[i], n.click[j], n.scores[j], n.stow[j], w);
  }

  lemma ClickOnlyOrder(x1: real, y1: real, z1: real, x2: real, y2: real, z2: real, w: Weights)
    requires w.click > 0.0 && w.scores == 0.0 && w.stow == 0.0
    ensures WeightedSum(x1, y1, z1, w) <= WeightedSum(x2, y2, z2, w) <==> x1 <= x2
  {
    ScaleOrder(x1, x2, w.click);
  }

  lemma ScaleOrder(x: real, y: real, c: real)
    requires c > 0.0
    ensures x * c <= y * c <==> x <= y
  {
    if x <= y {
      assert x * c <= y * c;
    } else {
      assert y * c < x * c;
    }
  }

  /** Scoring and ranking never lets a bvid appear twice if the candidates had none twice. */
  lemma WeightedHotDistinct(vs: seq<Video>, w: Weights, topN: int)
    requires DistinctBy(vs, BvidOf)
    ensures DistinctBy(WeightedHot(vs, w, topN), BvidOf)
  {
    var scored := WithScores(vs, w);
    assert forall i :: 0 <= i < |vs| ==> scored[i].bvid == vs[i].bvid;
    SortDescDistinct(scored, ScoreKey, BvidOf);
  }
}
