/** The sweep that picks the decision threshold of greatest F1, against the F1 of the
    confusion counts at every threshold. */
module Threshold {
  import opened Options
  import opened Auc
  import Sorted

  // ----------------------------------------------------------------- confusion counts

  /** Rows labelled `cls` that are predicted positive at `threshold`. */
  function Predicted(rows: seq<Row>, threshold: real, cls: bool): nat {
    if rows == [] then 0
    else
      var last := rows[|rows| - 1];
      Predicted(rows[..|rows| - 1], threshold, cls) + if last.positive == cls && last.score >= threshold then 1 else 0
  }

  /** Rows labelled positive that are not. */
  function Missed(rows: seq<Row>, threshold: real): nat {
    if rows == [] then 0
    else
      var last := rows[|rows| - 1];
      Missed(rows[..|rows| - 1], threshold) + if last.positive && last.score < threshold then 1 else 0
  }

  function Ratio(part: nat, rest: nat): real {
    if part + rest > 0 then (part as real) / ((part + rest) as real) else 0.0
  }

  function HarmonicMean(precision: real, recall: real): real
    requires precision >= 0.0 && recall >= 0.0
  {
    if precision + recall > 0.0 then 2.0 * precision * recall / (precision + recall) else 0.0
  }

  function F1(rows: seq<Row>, threshold: real): real {
    var tp, fp, fn := Predicted(rows, threshold, true), Predicted(rows, threshold, false), Missed(rows, threshold);
    HarmonicMean(Ratio(tp, fp), Ratio(tp, fn))
  }

  /** The threshold of a bin, in thousandths. */
  function Cut(k: int): (threshold: real)
    ensures 1000.0 * threshold == k as real
  {
    (k as real) / 1000.0
  }

  /** F1 at the threshold of a bin. */
  function F1At(rows: seq<Row>, k: int): real {
    F1(rows, Cut(k))
  }

  // -------------------------------------------------------------------------- the bins

  function BinOf(r: Row): int {
    (r.score * 1000.0).Floor
  }

  function BinsOf(rows: seq<Row>): (ks: seq<int>)
    ensures |ks| == |rows| && forall i | 0 <= i < |rows| :: ks[i] == BinOf(rows[i])
  {
    seq(|rows|, i requires 0 <= i < |rows| => BinOf(rows[i]))
  }

  function RowsIn(rows: seq<Row>, k: int): nat {
    if rows == [] then 0
    else RowsIn(rows[..|rows| - 1], k) + if BinOf(rows[|rows| - 1]) == k then 1 else 0
  }

  function PositivesIn(rows: seq<Row>, k: int): nat {
    if rows == [] then 0
    else
      var last := rows[|rows| - 1];
      PositivesIn(rows[..|rows| - 1], k) + if last.positive && BinOf(last) == k then 1 else 0
  }

  datatype Bin = Bin(k: int, rows: nat, positives: nat)

  function BinAt(rows: seq<Row>, k: int): Bin {
    Bin(k, RowsIn(rows, k), PositivesIn(rows, k))
  }

  /** The occupied bins with their counts, from the highest down. */
  function Binned(rows: seq<Row>): (bins: seq<Bin>)
    ensures var ks := Sorted.Distinct(BinsOf(rows));
      |bins| == |ks| && forall i | 0 <= i < |bins| :: bins[i] == BinAt(rows, ks[|ks| - 1 - i])
  {
    var ks := Sorted.Distinct(BinsOf(rows));
    seq(|ks|, i requires 0 <= i < |ks| => BinAt(rows, ks[|ks| - 1 - i]))
  }

  predicate Falling(bins: seq<Bin>) {
    forall i, j | 0 <= i < j < |bins| :: bins[j].k < bins[i].k
  }

  ghost predicate Occupied(bins: seq<Bin>, k: int) {
    exists i | 0 <= i < |bins| :: bins[i].k == k
  }

  lemma BinsAreOccupied(rows: seq<Row>)
    ensures Falling(Binned(rows))
    ensures forall i | 0 <= i < |rows| :: Occupied(Binned(rows), BinOf(rows[i]))
    ensures rows != [] ==> Binned(rows) != []
  {
    var ks, bins := Sorted.Distinct(BinsOf(rows)), Binned(rows);
    forall i | 0 <= i < |rows| ensures Occupied(bins, BinOf(rows[i])) {
      assert BinsOf(rows)[i] in BinsOf(rows);
      var j :| 0 <= j < |ks| && ks[j] == BinOf(rows[i]);
      assert bins[|ks| - 1 - j].k == BinOf(rows[i]);
    }
    if rows != [] {
      assert Occupied(bins, BinOf(rows[0]));
    }
  }

  // ------------------------------------------------------------------ counting by bins

  /** No row in a bin strictly between `k` and `above`, or none above `k` at all. */
  predicate Between(rows: seq<Row>, k: int, above: Option<int>) {
    forall i | 0 <= i < |rows| :: BinOf(rows[i]) <= k || (above.Some? && above.value <= BinOf(rows[i]))
  }

  function PredictedAbove(rows: seq<Row>, above: Option<int>, cls: bool): nat {
    if above.Some? then Predicted(rows, Cut(above.value), cls) else 0
  }

  /** A bin adds its own rows to what is predicted from the bin above on. */
  lemma {:induction false} OneMoreBin(rows: seq<Row>, k: int, above: Option<int>)
    requires Between(rows, k, above) && (above.Some? ==> k < above.value)
    ensures Predicted(rows, Cut(k), true) == PredictedAbove(rows, above, true) + PositivesIn(rows, k)
    ensures Predicted(rows, Cut(k), true) + Predicted(rows, Cut(k), false) ==
      PredictedAbove(rows, above, true) + PredictedAbove(rows, above, false) + RowsIn(rows, k)
  {
    if rows != [] {
      OneMoreBin(rows[..|rows| - 1], k, above);
    }
  }

  /** Without rows in bins from `k` up to but not including `above`, both cuts are alike. */
  lemma {:induction false} EmptyBins(rows: seq<Row>, k: int, above: Option<int>)
    requires forall i | 0 <= i < |rows| :: BinOf(rows[i]) < k || (above.Some? && above.value <= BinOf(rows[i]))
    requires above.Some? ==> k <= above.value
    ensures forall cls :: Predicted(rows, Cut(k), cls) == PredictedAbove(rows, above, cls)
  {
    if rows != [] {
      EmptyBins(rows[..|rows| - 1], k, above);
    }
  }

  lemma {:induction false} HitsAndMisses(rows: seq<Row>, threshold: real)
    ensures Predicted(rows, threshold, true) + Missed(rows, threshold) == Positives(rows)
  {
    if rows != [] {
      HitsAndMisses(rows[..|rows| - 1], threshold);
    }
  }

  /** The harmonic mean in one fraction. */
  lemma OneFraction(tp: nat, fp: nat, fn: nat)
    ensures HarmonicMean(Ratio(tp, fp), Ratio(tp, fn)) == Fraction(tp, tp + fp, tp + fn)
  {
  }

  function Fraction(tp: nat, picked: nat, total: nat): real {
    if total + picked > 0 then 2.0 * (tp as real) / ((total as real) + (picked as real)) else 0.0
  }

  function FractionAt(rows: seq<Row>, k: int): real {
    var tp, fp := Predicted(rows, Cut(k), true), Predicted(rows, Cut(k), false);
    Fraction(tp, tp + fp, Positives(rows))
  }

  /** The F1 of the confusion counts is the sweep's fraction. */
  lemma F1IsFraction(rows: seq<Row>, k: int)
    ensures F1At(rows, k) == FractionAt(rows, k)
  {
    HitsAndMisses(rows, Cut(k));
    OneFraction(Predicted(rows, Cut(k), true), Predicted(rows, Cut(k), false), Missed(rows, Cut(k)));
  }

  /** F1 lies between zero and one, and it is one exactly when something is predicted and
      nothing is predicted wrongly or missed. */
  lemma F1IsPerfect(rows: seq<Row>, threshold: real)
    ensures 0.0 <= F1(rows, threshold) <= 1.0
    ensures F1(rows, threshold) == 1.0 <==>
      Predicted(rows, threshold, true) > 0 && Predicted(rows, threshold, false) == 0 && Missed(rows, threshold) == 0
  {
    var tp, fp, fn := Predicted(rows, threshold, true), Predicted(rows, threshold, false), Missed(rows, threshold);
    OneFraction(tp, fp, fn);
    PartOfWhole(2.0 * (tp as real), (tp + fn + tp + fp) as real);
  }

  lemma PartOfWhole(a: real, b: real)
    requires 0.0 <= a <= b
    ensures b > 0.0 ==> 0.0 <= a / b <= 1.0 && (a / b == 1.0 <==> a == b)
  {
  }

  // ------------------------------------------------------------------------ the sweep

  /** The bin before the `i`th on the way down. */
  function Above(bins: seq<Bin>, i: nat): Option<int>
    requires i <= |bins|
  {
    if i == 0 then None else Some(bins[i - 1].k)
  }

  function PositivesUpTo(bins: seq<Bin>, n: nat): nat
    requires n <= |bins|
  {
    if n == 0 then 0 else PositivesUpTo(bins, n - 1) + bins[n - 1].positives
  }

  lemma NextBin(rows: seq<Row>, bins: seq<Bin>, i: nat)
    requires bins == Binned(rows) && i < |bins|
    ensures var k, above := bins[i].k, Above(bins, i);
      Predicted(rows, Cut(k), true) == PredictedAbove(rows, above, true) + bins[i].positives
      && Predicted(rows, Cut(k), true) + Predicted(rows, Cut(k), false) ==
        PredictedAbove(rows, above, true) + PredictedAbove(rows, above, false) + bins[i].rows
  {
    BinsAreOccupied(rows);
    forall r | 0 <= r < |rows|
      ensures BinOf(rows[r]) <= bins[i].k || (i > 0 && bins[i - 1].k <= BinOf(rows[r]))
    {
      assert Occupied(bins, BinOf(rows[r]));
    }
    OneMoreBin(rows, bins[i].k, Above(bins, i));
  }

  lemma {:induction false} PositivesAreCumulative(rows: seq<Row>, bins: seq<Bin>, n: nat)
    requires bins == Binned(rows) && n <= |bins|
    ensures PositivesUpTo(bins, n) == PredictedAbove(rows, Above(bins, n), true)
  {
    if n > 0 {
      PositivesAreCumulative(rows, bins, n - 1);
      NextBin(rows, bins, n - 1);
    }
  }

  lemma {:induction false} NoneMissed(rows: seq<Row>, k: int)
    requires forall i | 0 <= i < |rows| :: k <= BinOf(rows[i])
    ensures Predicted(rows, Cut(k), true) == Positives(rows)
  {
    if rows != [] {
      NoneMissed(rows[..|rows| - 1], k);
    }
  }

  lemma AllPositives(rows: seq<Row>, bins: seq<Bin>)
    requires bins == Binned(rows)
    ensures PositivesUpTo(bins, |bins|) == Positives(rows)
  {
    PositivesAreCumulative(rows, bins, |bins|);
    BinsAreOccupied(rows);
    if bins != [] {
      forall r | 0 <= r < |rows| ensures bins[|bins| - 1].k <= BinOf(rows[r]) {
        assert Occupied(bins, BinOf(rows[r]));
      }
      NoneMissed(rows, bins[|bins| - 1].k);
    }
  }

  /** An F1 value and the threshold it is reached at, in thousandths. */
  datatype Candidate = Candidate(f1: real, k: int)

  predicate Greater(a: Candidate, b: Candidate) {
    a.f1 > b.f1 || (a.f1 == b.f1 && a.k > b.k)
  }

  /** The lexicographic greatest of the first `n` bins. */
  predicate Leads(rows: seq<Row>, bins: seq<Bin>, n: nat, best: Candidate)
    requires n <= |bins|
  {
    best.f1 == FractionAt(rows, best.k)
    && forall i | 0 <= i < n :: !Greater(Candidate(FractionAt(rows, bins[i].k), bins[i].k), best)
  }

  /** Comparing one more bin with the best so far. */
  lemma NextLeads(rows: seq<Row>, bins: seq<Bin>, i: nat, best: Option<Candidate>, candidate: Candidate)
    requires i < |bins| && candidate == Candidate(FractionAt(rows, bins[i].k), bins[i].k)
    requires if best.Some? then Leads(rows, bins, i, best.value) else i == 0
    ensures Leads(rows, bins, i + 1,
                  if best.None? || Greater(candidate, best.value) then candidate else best.value)
  {
  }

  /** Nothing at all for no rows; otherwise, when there is a positive, the threshold of
      greatest F1 among all multiples of a thousandth, and the largest of those. */
  method SelectF1Threshold(rows: seq<Row>) returns (best: Option<Candidate>)
    ensures best.None? <==> rows == []
    ensures best.Some? ==> best.value.f1 == F1At(rows, best.value.k)
    ensures best.Some? ==> forall k :: F1At(rows, k) <= best.value.f1
    ensures best.Some? ==> ((forall k | k > best.value.k :: F1At(rows, k) < best.value.f1) <==> Positives(rows) > 0)
  {
    var bins := Binned(rows);
    var total := 0;
    for i := 0 to |bins|
      invariant total == PositivesUpTo(bins, i)
    {
      total := total + bins[i].positives;
    }
    AllPositives(rows, bins);

    var tp: nat, picked: nat := 0, 0;
    best := None;
    for i := 0 to |bins|
      invariant Swept(rows, bins, i, tp, picked)
      invariant best.None? <==> i == 0
      invariant best.Some? ==> Leads(rows, bins, i, best.value)
    {
      SweepBin(rows, bins, i, tp, picked);
      tp := tp + bins[i].positives;
      picked := picked + bins[i].rows;
      var f1 := 2.0 * (tp as real) / ((total as real) + (picked as real));
      var candidate := Candidate(f1, bins[i].k);
      NextLeads(rows, bins, i, best, candidate);
      if best.None? || Greater(candidate, best.value) {
        best := Some(candidate);
      }
    }
    BinsAreOccupied(rows);
    if best.Some? {
      LeaderIsBest(rows, bins, best.value);
      LeaderIsBestF1(rows, best.value);
    }
  }

  /** The running counts before the `i`th bin. */
  predicate Swept(rows: seq<Row>, bins: seq<Bin>, i: nat, tp: nat, picked: nat)
    requires i <= |bins|
  {
    tp == PredictedAbove(rows, Above(bins, i), true)
    && picked == tp + PredictedAbove(rows, Above(bins, i), false)
  }

  /** The `i`th bin turns the running counts into those at its threshold. */
  lemma SweepBin(rows: seq<Row>, bins: seq<Bin>, i: nat, tp: nat, picked: nat)
    requires bins == Binned(rows) && i < |bins| && Swept(rows, bins, i, tp, picked)
    ensures var tp', picked' := tp + bins[i].positives, picked + bins[i].rows;
      Swept(rows, bins, i + 1, tp', picked') && picked' > 0
      && FractionAt(rows, bins[i].k) == 2.0 * (tp' as real) / ((Positives(rows) as real) + (picked' as real))
  {
    NextBin(rows, bins, i);
    OccupiedIsCounted(rows, bins, i);
  }

  lemma OccupiedIsCounted(rows: seq<Row>, bins: seq<Bin>, i: nat)
    requires bins == Binned(rows) && i < |bins|
    ensures bins[i].rows > 0
  {
    var ks := Sorted.Distinct(BinsOf(rows));
    assert ks[|ks| - 1 - i] in ks;
    var j :| 0 <= j < |rows| && BinsOf(rows)[j] == bins[i].k;
    InOneBin(rows, j);
  }

  lemma {:induction false} InOneBin(rows: seq<Row>, j: nat)
    requires j < |rows|
    ensures RowsIn(rows, BinOf(rows[j])) > 0
    ensures rows[j].positive ==> PositivesIn(rows, BinOf(rows[j])) > 0
    ensures rows[j].positive ==> Predicted(rows, Cut(BinOf(rows[j])), true) > 0
  {
    if j < |rows| - 1 {
      InOneBin(rows[..|rows| - 1], j);
    }
  }

  lemma {:induction false} SomePositive(rows: seq<Row>) returns (j: nat)
    requires Positives(rows) > 0
    ensures j < |rows| && rows[j].positive
  {
    if rows[|rows| - 1].positive {
      j := |rows| - 1;
    } else {
      j := SomePositive(rows[..|rows| - 1]);
    }
  }

  /** A threshold does what the lowest occupied bin from it on does, or predicts nothing. */
  lemma NextOccupied(rows: seq<Row>, bins: seq<Bin>, k: int) returns (j: nat)
    requires bins == Binned(rows)
    ensures j <= |bins|
    ensures j == 0 ==> FractionAt(rows, k) == 0.0
    ensures j > 0 ==> k <= bins[j - 1].k && FractionAt(rows, k) == FractionAt(rows, bins[j - 1].k)
  {
    j := |bins|;
    while j > 0 && bins[j - 1].k < k
      invariant j <= |bins|
      invariant forall i | j <= i < |bins| :: bins[i].k < k
    {
      j := j - 1;
    }
    NoneBetween(rows, bins, k, j);
  }

  lemma NoneBetween(rows: seq<Row>, bins: seq<Bin>, k: int, j: nat)
    requires bins == Binned(rows) && j <= |bins|
    requires forall i | j <= i < |bins| :: bins[i].k < k
    requires j > 0 ==> k <= bins[j - 1].k
    ensures FractionAt(rows, k) == if j > 0 then FractionAt(rows, bins[j - 1].k) else 0.0
  {
    BinsAreOccupied(rows);
    forall r | 0 <= r < |rows|
      ensures BinOf(rows[r]) < k || (j > 0 && bins[j - 1].k <= BinOf(rows[r]))
    {
      assert Occupied(bins, BinOf(rows[r]));
    }
    EmptyBins(rows, k, Above(bins, j));
  }

  lemma FractionIsPositive(rows: seq<Row>, k: int)
    ensures FractionAt(rows, k) >= 0.0
    ensures Predicted(rows, Cut(k), true) > 0 <==> FractionAt(rows, k) > 0.0
  {
  }

  lemma LeaderIsBest(rows: seq<Row>, bins: seq<Bin>, best: Candidate)
    requires bins == Binned(rows) && Leads(rows, bins, |bins|, best)
    ensures forall k :: FractionAt(rows, k) <= best.f1
    ensures (forall k | k > best.k :: FractionAt(rows, k) < best.f1) <==> Positives(rows) > 0
  {
    FractionIsPositive(rows, best.k);
    if Positives(rows) > 0 {
      var r := SomePositive(rows);
      InOneBin(rows, r);
      FractionIsPositive(rows, BinOf(rows[r]));
      BinsAreOccupied(rows);
      assert Occupied(bins, BinOf(rows[r]));
    }
    forall k
      ensures FractionAt(rows, k) <= best.f1
      ensures k > best.k && Positives(rows) > 0 ==> FractionAt(rows, k) < best.f1
    {
      var j := NextOccupied(rows, bins, k);
      if j > 0 {
        assert !Greater(Candidate(FractionAt(rows, bins[j - 1].k), bins[j - 1].k), best);
      }
    }
    if Positives(rows) == 0 {
      NoPositiveNothing(rows, best.k);
      NoPositiveNothing(rows, best.k + 1);
    }
  }

  lemma LeaderIsBestF1(rows: seq<Row>, best: Candidate)
    ensures F1At(rows, best.k) == FractionAt(rows, best.k)
    ensures (forall k :: FractionAt(rows, k) <= best.f1) <==> (forall k :: F1At(rows, k) <= best.f1)
    ensures (forall k | k > best.k :: FractionAt(rows, k) < best.f1) <==>
      (forall k | k > best.k :: F1At(rows, k) < best.f1)
  {
    forall k ensures F1At(rows, k) == FractionAt(rows, k) {
      F1IsFraction(rows, k);
    }
  }

  /** Without a positive every threshold is as bad. */
  lemma NoPositiveNothing(rows: seq<Row>, k: int)
    requires Positives(rows) == 0
    ensures FractionAt(rows, k) == 0.0
  {
  }
}
