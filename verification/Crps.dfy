/** The score of a discrete distribution against an observation. */
module Crps {
  // The program computes it with cumulative sums. The definition is quadratic: the mean
  // distance of a draw from the observation, less half the mean distance of two draws.
  // Weights are exact reals. The values are in ascending order, and the weights are their
  // shares of the counts.

  // -------------------------------------------------------------------- array pieces

  /** The sum of the first `n` entries. */
  function Sum(s: seq<real>, n: nat): real
    requires n <= |s|
  {
    if n == 0 then 0.0 else Sum(s, n - 1) + s[n - 1]
  }

  function Cumulative(s: seq<real>): (c: seq<real>)
    ensures |c| == |s| && forall i | 0 <= i < |s| :: c[i] == Sum(s, i + 1)
  {
    seq(|s|, i requires 0 <= i < |s| => Sum(s, i + 1))
  }

  function Products(a: seq<real>, b: seq<real>): (p: seq<real>)
    requires |a| == |b|
    ensures |p| == |a| && forall i | 0 <= i < |a| :: p[i] == a[i] * b[i]
  {
    seq(|a|, i requires 0 <= i < |a| && |a| == |b| => a[i] * b[i])
  }

  function Constant(k: real, n: nat): seq<real> {
    seq(n, i => k)
  }

  predicate Ascending(x: seq<real>) {
    forall i, j | 0 <= i < j < |x| :: x[i] <= x[j]
  }

  // ------------------------------------------------------------------- the definition

  function Abs(a: real): real {
    if a < 0.0 then -a else a
  }

  function Gaps(x: seq<real>, y: real): seq<real> {
    seq(|x|, i requires 0 <= i < |x| => Abs(x[i] - y))
  }

  /** The mean distance of a draw from `y`: the sum of w_i |x_i - y|. */
  function Distance(w: seq<real>, x: seq<real>, y: real): real
    requires |w| == |x|
  {
    Sum(Products(w, Gaps(x, y)), |x|)
  }

  function Distances(w: seq<real>, x: seq<real>): seq<real>
    requires |w| == |x|
  {
    seq(|x|, i requires 0 <= i < |x| && |w| == |x| => Distance(w, x, x[i]))
  }

  /** The mean distance of two draws: the sum of w_i w_j |x_i - x_j| over all i and j. */
  function MeanDistance(w: seq<real>, x: seq<real>): real
    requires |w| == |x|
  {
    Sum(Products(w, Distances(w, x)), |x|)
  }

  // -------------------------------------------------------------------- the fast form

  function Margins(w: seq<real>): seq<real> {
    seq(|w|, i requires 0 <= i < |w| => 2.0 * Cumulative(w)[i] - w[i] - 1.0)
  }

  function Gini(w: seq<real>, x: seq<real>): real
    requires |w| == |x|
  {
    2.0 * Sum(Products(Products(w, x), Margins(w)), |x|)
  }

  /** How many of the first `n` ascending values are at most `y`. */
  function UpTo(x: seq<real>, y: real, n: nat): (k: nat)
    requires n <= |x|
    ensures k <= n
  {
    if n == 0 then 0 else if x[n - 1] <= y then n else UpTo(x, y, n - 1)
  }

  /** The cumulative form, from the sums up to a place and the sums of everything. */
  function Split(y: real, fy: real, sy: real, total: real, mean: real): real {
    y * fy - sy + (mean - sy) - y * (total - fy)
  }

  function Eabs(w: seq<real>, x: seq<real>, y: real): real
    requires |w| == |x| > 0
  {
    var cw, cwx := Cumulative(w), Cumulative(Products(w, x));
    var mean := cwx[|cwx| - 1];
    var j := UpTo(x, y, |x|) - 1;
    Split(y, if j >= 0 then cw[j] else 0.0, if j >= 0 then cwx[j] else 0.0, 1.0, mean)
  }

  function Total(counts: seq<nat>, n: nat): nat
    requires n <= |counts|
  {
    if n == 0 then 0 else Total(counts, n - 1) + counts[n - 1]
  }

  /** Weights from the counts of the distinct values. */
  function Weights(counts: seq<nat>): seq<real>
    requires Total(counts, |counts|) > 0
  {
    var t := Total(counts, |counts|) as real;
    seq(|counts|, i requires 0 <= i < |counts| && t > 0.0 => (counts[i] as real) / t)
  }

  function Score(counts: seq<nat>, x: seq<real>, y: real): real
    requires |counts| == |x| && Total(counts, |counts|) > 0
  {
    var w := Weights(counts);
    Eabs(w, x, y) - 0.5 * Gini(w, x)
  }

  // ------------------------------------------------------------------- the theorems

  /** For every observation, also below or above all values. */
  lemma EabsIsDistance(w: seq<real>, x: seq<real>, y: real)
    requires |w| == |x| > 0 && Ascending(x) && Sum(w, |w|) == 1.0
    ensures Eabs(w, x, y) == Distance(w, x, y)
  {
    UpToSplits(x, y, |x|);
    DistanceSplits(w, x, y, UpTo(x, y, |x|));
  }

  /** With weights that add up to one, the single sum is the double sum. */
  lemma GiniIsMeanDistance(w: seq<real>, x: seq<real>)
    requires |w| == |x| && Ascending(x) && Sum(w, |w|) == 1.0
    ensures Gini(w, x) == MeanDistance(w, x)
  {
    forall i | 0 <= i < |x|
      ensures Distances(w, x)[i] ==
        Split(x[i], Cumulative(w)[i], Cumulative(Products(w, x))[i], 1.0, Sum(Products(w, x), |x|))
    {
      DistanceOfDraw(w, x, i);
    }
    RowsAreTwiceTerms(w, x, Products(w, x), Distances(w, x));
  }

  /** The reported score is the mean distance of a draw from the observation less half the
      mean distance of two draws. */
  lemma ScoreIsDefinition(counts: seq<nat>, x: seq<real>, y: real)
    requires |counts| == |x| && Total(counts, |counts|) > 0 && Ascending(x)
    ensures var w := Weights(counts);
      Sum(w, |w|) == 1.0 && Score(counts, x, y) == Distance(w, x, y) - 0.5 * MeanDistance(w, x)
  {
    var w := Weights(counts);
    var t := Total(counts, |counts|) as real;
    WeightsUpTo(counts, w, t, |counts|);
    assert Sum(w, |w|) == 1.0 by {
      Whole(Sum(w, |w|), t, Sum(w, |w|) * t);
    }
    GiniIsMeanDistance(w, x);
    EabsIsDistance(w, x, y);
  }

  // ---------------------------------------------------------------- sums in general

  lemma Distribute(k: real, p: real, a: real, p': real)
    requires p' == p + a
    ensures k * p' == k * p + k * a
  {
  }

  /** Summation by parts. */
  lemma {:induction false} ByParts(a: seq<real>, b: seq<real>, n: nat)
    requires |a| == |b| && n <= |a|
    ensures Sum(Products(a, Cumulative(b)), n) + Sum(Products(b, Cumulative(a)), n)
      == Sum(a, n) * Sum(b, n) + Sum(Products(a, b), n)
  {
    if n > 0 {
      ByParts(a, b, n - 1);
    }
  }

  // ------------------------------------------------------------------- the distance

  /** With the first `k` entries turned round. */
  lemma {:induction false} SumOfSides(d: seq<real>, v: seq<real>, b: seq<real>, k: nat, n: nat)
    requires |d| == |v| == |b| && k <= n <= |d|
    requires forall i | 0 <= i < k :: d[i] == v[i] - b[i]
    requires forall i | k <= i < n :: d[i] == b[i] - v[i]
    ensures Sum(d, n) == Sum(v, k) - Sum(b, k) + (Sum(b, n) - Sum(b, k)) - (Sum(v, n) - Sum(v, k))
    decreases n
  {
    if n > k {
      SumOfSides(d, v, b, k, n - 1);
    } else if n > 0 {
      SumOfSides(d, v, b, k - 1, n - 1);
    }
  }

  lemma {:induction false} SumOfMultiples(w: seq<real>, v: seq<real>, y: real, n: nat)
    requires |w| == |v| && n <= |v|
    requires forall i | 0 <= i < |v| :: v[i] == Times(y, w[i])
    ensures Sum(v, n) == Times(y, Sum(w, n))
  {
    if n > 0 {
      SumOfMultiples(w, v, y, n - 1);
      OneMultiple(y, Sum(w, n - 1), w[n - 1]);
    }
  }

  lemma OneMultiple(y: real, p: real, a: real)
    ensures Times(y, p + a) == Times(y, p) + Times(y, a)
  {
  }

  lemma SplitOfMultiples(y: real, fy: real, sy: real, total: real, mean: real)
    ensures Split(y, fy, sy, total, mean) == Times(y, fy) - sy + (mean - sy) - (Times(y, total) - Times(y, fy))
  {
  }

  /** With `k` values up to `y` and the others from `y` on, the distances have no absolute
      values left. */
  lemma DistanceSplits(w: seq<real>, x: seq<real>, y: real, k: nat)
    requires |w| == |x| && k <= |x|
    requires forall i | 0 <= i < k :: x[i] <= y
    requires forall i | k <= i < |x| :: y <= x[i]
    ensures var b := Products(w, x);
      Distance(w, x, y) == Split(y, Sum(w, k), Sum(b, k), Sum(w, |x|), Sum(b, |x|))
  {
    var b, d := Products(w, x), Products(w, Gaps(x, y));
    var v := seq(|w|, i requires 0 <= i < |w| => Times(y, w[i]));
    forall i | 0 <= i < |x|
      ensures i < k ==> d[i] == v[i] - b[i]
      ensures k <= i ==> d[i] == b[i] - v[i]
    {
      OneDistance(w[i], x[i], y);
    }
    SumOfSides(d, v, b, k, |x|);
    SumOfMultiples(w, v, y, k);
    SumOfMultiples(w, v, y, |x|);
    SplitOfMultiples(y, Sum(w, k), Sum(b, k), Sum(w, |x|), Sum(b, |x|));
  }

  lemma OneDistance(a: real, x: real, y: real)
    ensures a * Abs(x - y) == if x <= y then Times(y, a) - a * x else a * x - Times(y, a)
    ensures x == y ==> Times(y, a) == a * x
  {
  }

  lemma {:induction false} UpToSplits(x: seq<real>, y: real, n: nat)
    requires Ascending(x) && n <= |x|
    ensures forall i | 0 <= i < UpTo(x, y, n) :: x[i] <= y
    ensures forall i | UpTo(x, y, n) <= i < n :: y < x[i]
  {
    if n > 0 && x[n - 1] > y {
      UpToSplits(x, y, n - 1);
    }
  }

  // ------------------------------------------------------------------- two draws

  predicate RowAt(row: real, p: real, q: real, b: real, share: real) {
    row == 2.0 * p - 2.0 * q - b + share
  }

  predicate TermAt(term: real, p: real, r: real, b: real) {
    term == 2.0 * p - r - b
  }

  lemma DistanceOfDraw(w: seq<real>, x: seq<real>, i: nat)
    requires |w| == |x| && Ascending(x) && Sum(w, |w|) == 1.0 && i < |x|
    ensures var b := Products(w, x);
      Distances(w, x)[i] == Split(x[i], Cumulative(w)[i], Cumulative(b)[i], 1.0, Sum(b, |x|))
  {
    DistanceSplits(w, x, x[i], i + 1);
  }

  /** One term of the single sum. */
  lemma TermOfGini(w: seq<real>, b: seq<real>, i: nat)
    requires |w| == |b| && i < |w|
    ensures TermAt(Products(b, Margins(w))[i],
      Products(b, Cumulative(w))[i], Products(w, b)[i], b[i])
  {
  }

  lemma {:induction false} SumOfRows(rows: seq<real>, p: seq<real>, q: seq<real>, b: seq<real>,
                                     shares: seq<real>, n: nat)
    requires n <= |rows| && |p| == |q| == |b| == |shares| == |rows|
    requires forall i | 0 <= i < n :: RowAt(rows[i], p[i], q[i], b[i], shares[i])
    ensures RowAt(Sum(rows, n), Sum(p, n), Sum(q, n), Sum(b, n), Sum(shares, n))
  {
    if n > 0 {
      SumOfRows(rows, p, q, b, shares, n - 1);
    }
  }

  lemma {:induction false} SumOfShares(w: seq<real>, mean: real, n: nat)
    requires n <= |w|
    ensures Sum(Products(w, Constant(mean, |w|)), n) == mean * Sum(w, n)
  {
    if n > 0 {
      SumOfShares(w, mean, n - 1);
      Distribute(mean, Sum(w, n - 1), w[n - 1], Sum(w, n));
    }
  }

  lemma {:induction false} SumOfTerms(terms: seq<real>, p: seq<real>, r: seq<real>, b: seq<real>, n: nat)
    requires n <= |terms| && |p| == |r| == |b| == |terms|
    requires forall i | 0 <= i < n :: TermAt(terms[i], p[i], r[i], b[i])
    ensures TermAt(Sum(terms, n), Sum(p, n), Sum(r, n), Sum(b, n))
  {
    if n > 0 {
      SumOfTerms(terms, p, r, b, n - 1);
    }
  }

  lemma AllRows(w: seq<real>, x: seq<real>, b: seq<real>, d: seq<real>, mean: real)
    requires |w| == |x| == |b| == |d|
    requires forall i | 0 <= i < |w| :: b[i] == w[i] * x[i]
    requires forall i | 0 <= i < |w| :: d[i] == Split(x[i], Cumulative(w)[i], Cumulative(b)[i], 1.0, mean)
    ensures forall i | 0 <= i < |w| :: RowAt(Products(w, d)[i],
      Products(b, Cumulative(w))[i], Products(w, Cumulative(b))[i], b[i], Products(w, Constant(mean, |w|))[i])
  {
  }

  lemma AllTerms(w: seq<real>, b: seq<real>)
    requires |w| == |b|
    ensures var n := |w|;
      TermAt(Sum(Products(b, Margins(w)), n), Sum(Products(b, Cumulative(w)), n), Sum(Products(w, b), n), Sum(b, n))
  {
    var terms, p, r := Products(b, Margins(w)), Products(b, Cumulative(w)), Products(w, b);
    forall i | 0 <= i < |w| ensures TermAt(terms[i], p[i], r[i], b[i]) {
      TermOfGini(w, b, i);
    }
    SumOfTerms(terms, p, r, b, |w|);
  }

  lemma RowsAddUp(w: seq<real>, x: seq<real>, b: seq<real>, d: seq<real>, mean: real)
    requires |w| == |x| == |b| == |d|
    requires forall i | 0 <= i < |w| :: b[i] == w[i] * x[i]
    requires forall i | 0 <= i < |w| :: d[i] == Split(x[i], Cumulative(w)[i], Cumulative(b)[i], 1.0, mean)
    ensures var n := |w|;
      RowAt(Sum(Products(w, d), n), Sum(Products(b, Cumulative(w)), n), Sum(Products(w, Cumulative(b)), n),
        Sum(b, n), Sum(Products(w, Constant(mean, n)), n))
  {
    AllRows(w, x, b, d, mean);
    SumOfRows(Products(w, d), Products(b, Cumulative(w)), Products(w, Cumulative(b)), b,
      Products(w, Constant(mean, |w|)), |w|);
  }

  /** The rows add up to twice the terms, for any distances of the closed form. */
  lemma RowsAreTwiceTerms(w: seq<real>, x: seq<real>, b: seq<real>, d: seq<real>)
    requires |w| == |x| == |b| == |d| && Sum(w, |w|) == 1.0
    requires forall i | 0 <= i < |w| :: b[i] == w[i] * x[i]
    requires forall i | 0 <= i < |w| :: d[i] == Split(x[i], Cumulative(w)[i], Cumulative(b)[i], 1.0, Sum(b, |b|))
    ensures 2.0 * Sum(Products(b, Margins(w)), |w|) == Sum(Products(w, d), |w|)
  {
    RowsAddUp(w, x, b, d, Sum(b, |b|));
    SharesOfOne(w, Sum(b, |b|));
    AllTerms(w, b);
    PartsOfOne(w, b);
  }

  lemma SharesOfOne(w: seq<real>, mean: real)
    requires Sum(w, |w|) == 1.0
    ensures Sum(Products(w, Constant(mean, |w|)), |w|) == mean
  {
    SumOfShares(w, mean, |w|);
  }

  lemma PartsOfOne(w: seq<real>, b: seq<real>)
    requires |w| == |b| && Sum(w, |w|) == 1.0
    ensures var n := |w|;
      Sum(Products(w, Cumulative(b)), n) + Sum(Products(b, Cumulative(w)), n) == Sum(b, n) + Sum(Products(w, b), n)
  {
    ByParts(w, b, |w|);
  }

  lemma Whole(p: real, t: real, pt: real)
    requires t > 0.0 && pt == p * t && pt == t
    ensures p == 1.0
  {
  }

  lemma {:induction false} WeightsUpTo(counts: seq<nat>, w: seq<real>, t: real, n: nat)
    requires t > 0.0 && n <= |counts| == |w|
    requires forall i | 0 <= i < n :: w[i] == (counts[i] as real) / t
    ensures Sum(w, n) * t == Total(counts, n) as real
  {
    if n > 0 {
      WeightsUpTo(counts, w, t, n - 1);
    }
  }

  // -------------------------------------------------------------------- the raw sample

  /** The sample itself: every value as often as it was counted. */
  function Expand(counts: seq<nat>, v: seq<real>, n: nat): (s: seq<real>)
    requires |counts| == |v| && n <= |v|
    ensures |s| == Total(counts, n)
  {
    if n == 0 then [] else Expand(counts, v, n - 1) + seq(counts[n - 1], _ => v[n - 1])
  }

  /** For every entry its distances to all entries. */
  function Totals(s: seq<real>): seq<real> {
    TotalsTo(s, s)
  }

  function TotalsTo(s: seq<real>, from: seq<real>): seq<real> {
    seq(|from|, k requires 0 <= k < |from| => Sum(Gaps(s, from[k]), |s|))
  }

  /** The score of a sample, without weights: its mean distance to the observation, less half
      the mean distance of its entries to one another. */
  function SampleScore(s: seq<real>, y: real): real
    requires |s| > 0
  {
    var t := |s| as real;
    Sum(Gaps(s, y), |s|) / t - 0.5 * (Sum(Totals(s), |s|) / t / t)
  }

  function Times(a: real, b: real): real {
    a * b
  }

  /** What the counts make of a sum over the sample. */
  function CountedSum(counts: seq<nat>, v: seq<real>, n: nat): real
    requires |counts| == |v| && n <= |v|
  {
    if n == 0 then 0.0 else CountedSum(counts, v, n - 1) + Times(counts[n - 1] as real, v[n - 1])
  }

  lemma {:induction false} SumOfExpanded(counts: seq<nat>, v: seq<real>, n: nat)
    requires |counts| == |v| && n <= |v|
    ensures Sum(Expand(counts, v, n), Total(counts, n)) == CountedSum(counts, v, n)
  {
    if n > 0 {
      SumOfExpanded(counts, v, n - 1);
      var before, block := Expand(counts, v, n - 1), seq(counts[n - 1], _ => v[n - 1]);
      assert Expand(counts, v, n) == before + block;
      SumOfBlock(before, block, v[n - 1], counts[n - 1]);
    }
  }

  lemma {:induction false} SumOfBlock(a: seq<real>, b: seq<real>, v: real, k: nat)
    requires k <= |b| && forall i | 0 <= i < |b| :: b[i] == v
    ensures Sum(a + b, |a| + k) == Sum(a, |a|) + Times(k as real, v)
  {
    if k > 0 {
      SumOfBlock(a, b, v, k - 1);
      assert (a + b)[|a| + k - 1] == v;
      OneMoreTime(k, v);
    } else {
      SamePrefix(a, a + b, |a|);
      assert Times(0.0, v) == 0.0;
    }
  }

  lemma OneMoreTime(k: nat, v: real)
    requires k > 0
    ensures Times(k as real, v) == Times((k - 1) as real, v) + v
  {
    assert k as real == (k - 1) as real + 1.0;
  }

  lemma {:induction false} SamePrefix(a: seq<real>, b: seq<real>, n: nat)
    requires n <= |a| && n <= |b| && forall i | 0 <= i < n :: a[i] == b[i]
    ensures Sum(a, n) == Sum(b, n)
  {
    if n > 0 {
      SamePrefix(a, b, n - 1);
    }
  }

  lemma {:induction false} GapsOfExpanded(counts: seq<nat>, x: seq<real>, y: real, n: nat)
    requires |counts| == |x| && n <= |x|
    ensures Gaps(Expand(counts, x, n), y) == Expand(counts, Gaps(x, y), n)
  {
    if n > 0 {
      GapsOfExpanded(counts, x, y, n - 1);
    }
  }

  lemma {:induction false} TotalsOfExpanded(counts: seq<nat>, x: seq<real>, s: seq<real>, n: nat)
    requires |counts| == |x| && n <= |x|
    ensures TotalsTo(s, Expand(counts, x, n)) == Expand(counts, TotalsTo(s, x), n)
  {
    if n > 0 {
      TotalsOfExpanded(counts, x, s, n - 1);
    }
  }

  /** Weights are shares of the counts. */
  ghost predicate AreShares(w: seq<real>, counts: seq<nat>, t: real) {
    t > 0.0 && |w| == |counts| && forall i | 0 <= i < |w| :: Times(w[i], t) == counts[i] as real
  }

  lemma WeightsAreShares(counts: seq<nat>)
    requires Total(counts, |counts|) > 0
    ensures AreShares(Weights(counts), counts, Total(counts, |counts|) as real)
  {
    var w, t := Weights(counts), Total(counts, |counts|) as real;
    forall i | 0 <= i < |w| ensures Times(w[i], t) == counts[i] as real {
      ShareTimesTotal(counts[i] as real, t, w[i]);
    }
  }

  lemma ShareTimesTotal(c: real, t: real, a: real)
    requires t > 0.0 && a == c / t
    ensures Times(a, t) == c
  {
  }

  lemma {:induction false} WeightedIsCounted(counts: seq<nat>, w: seq<real>, v: seq<real>, t: real, n: nat)
    requires AreShares(w, counts, t) && |v| == |w| && n <= |v|
    ensures Times(Sum(Products(w, v), n), t) == CountedSum(counts, v, n)
  {
    if n > 0 {
      WeightedIsCounted(counts, w, v, t, n - 1);
      OneShare(Sum(Products(w, v), n - 1), counts[n - 1] as real, w[n - 1], v[n - 1], t, Products(w, v)[n - 1]);
    } else {
      assert Times(0.0, t) == 0.0;
    }
  }

  lemma OneShare(p: real, c: real, a: real, v: real, t: real, av: real)
    requires Times(a, t) == c && av == a * v
    ensures Times(p + av, t) == Times(p, t) + Times(c, v)
  {
    assert av * t == (a * t) * v;
  }

  /** A sum over the sample is a weighted sum over the distinct values. */
  lemma SumOfSample(counts: seq<nat>, v: seq<real>, w: seq<real>, t: real)
    requires AreShares(w, counts, t) && |v| == |w|
    ensures Sum(Expand(counts, v, |v|), Total(counts, |v|)) == Times(Sum(Products(w, v), |v|), t)
  {
    SumOfExpanded(counts, v, |v|);
    WeightedIsCounted(counts, w, v, t, |v|);
  }

  /** Scaling every entry scales the sum. */
  lemma {:induction false} ProductsScale(w: seq<real>, v: seq<real>, v': seq<real>, t: real, n: nat)
    requires |w| == |v| == |v'| && n <= |v|
    requires forall i | 0 <= i < |v| :: v'[i] == Times(v[i], t)
    ensures Sum(Products(w, v'), n) == Times(Sum(Products(w, v), n), t)
  {
    if n > 0 {
      ProductsScale(w, v, v', t, n - 1);
      OneScaled(Sum(Products(w, v), n - 1), w[n - 1], v[n - 1], v'[n - 1], t,
        Products(w, v)[n - 1], Products(w, v')[n - 1]);
    } else {
      assert Times(0.0, t) == 0.0;
    }
  }

  lemma OneScaled(p: real, a: real, v: real, v': real, t: real, av: real, av': real)
    requires v' == Times(v, t) && av == a * v && av' == a * v'
    ensures Times(p + av, t) == Times(p, t) + av'
  {
    assert av' == (a * v) * t;
  }

  lemma DistanceOfSample(counts: seq<nat>, x: seq<real>, w: seq<real>, t: real, y: real)
    requires AreShares(w, counts, t) && |x| == |w|
    ensures var s := Expand(counts, x, |x|);
      Sum(Gaps(s, y), |s|) == Times(Distance(w, x, y), t)
  {
    GapsOfExpanded(counts, x, y, |x|);
    SumOfSample(counts, Gaps(x, y), w, t);
  }

  lemma PairsOfSample(counts: seq<nat>, x: seq<real>, w: seq<real>, t: real)
    requires AreShares(w, counts, t) && |x| == |w|
    ensures var s := Expand(counts, x, |x|);
      Sum(Totals(s), |s|) == Times(Times(MeanDistance(w, x), t), t)
  {
    var s := Expand(counts, x, |x|);
    var totals := TotalsTo(s, x);
    TotalsOfExpanded(counts, x, s, |x|);
    SumOfSample(counts, totals, w, t);
    forall i | 0 <= i < |x| ensures totals[i] == Times(Distances(w, x)[i], t) {
      DistanceOfSample(counts, x, w, t, x[i]);
    }
    ProductsScale(w, Distances(w, x), totals, t, |x|);
  }

  /** The reported score is the score of the sample. */
  lemma ScoreIsSampleScore(counts: seq<nat>, x: seq<real>, y: real)
    requires |counts| == |x| && Total(counts, |counts|) > 0 && Ascending(x)
    ensures Score(counts, x, y) == SampleScore(Expand(counts, x, |x|), y)
  {
    var s, w, t := Expand(counts, x, |x|), Weights(counts), Total(counts, |counts|) as real;
    WeightsAreShares(counts);
    ScoreIsDefinition(counts, x, y);
    DistanceOfSample(counts, x, w, t, y);
    PairsOfSample(counts, x, w, t);
    Shares(Distance(w, x, y), MeanDistance(w, x), Sum(Gaps(s, y), |s|), Sum(Totals(s), |s|), t);
  }

  lemma Shares(d: real, m: real, a: real, b: real, t: real)
    requires t > 0.0 && a == Times(d, t) && b == Times(Times(m, t), t)
    ensures d - 0.5 * m == a / t - 0.5 * (b / t / t)
  {
    Quotient(a, d, t);
    Quotient(b, Times(m, t), t);
    Quotient(Times(m, t), m, t);
  }

  lemma Quotient(b: real, m: real, u: real)
    requires u > 0.0 && b == Times(m, u)
    ensures b / u == m
  {
  }
}
