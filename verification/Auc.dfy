/** The area under the ROC curve by midranks, against its definition by pairs. */
module Auc {
  datatype Row = Row(score: real, positive: bool)

  // ------------------------------------------------------------------- the definition

  /** A positive against a negative: won, tied or lost. */
  function Beat(x: real, z: real): real {
    if z < x then 1.0 else if z == x then 0.5 else 0.0
  }

  /** Points of score `x` against the rows labelled `cls`. */
  function Against(x: real, rows: seq<Row>, cls: bool): real {
    if rows == [] then 0.0
    else
      var last := rows[|rows| - 1];
      Against(x, rows[..|rows| - 1], cls) + if last.positive == cls then Beat(x, last.score) else 0.0
  }

  /** Points of all positives in `rows` against the rows of `others` labelled `cls`. */
  function Points(rows: seq<Row>, others: seq<Row>, cls: bool): real {
    if rows == [] then 0.0
    else
      var last := rows[|rows| - 1];
      Points(rows[..|rows| - 1], others, cls) + if last.positive then Against(last.score, others, cls) else 0.0
  }

  function Positives(rows: seq<Row>): nat {
    if rows == [] then 0
    else Positives(rows[..|rows| - 1]) + if rows[|rows| - 1].positive then 1 else 0
  }

  // ------------------------------------------------------------------- the fast form

  predicate Ascending(rows: seq<Row>) {
    forall i, j | 0 <= i < j < |rows| :: rows[i].score <= rows[j].score
  }

  /** Stable insertion into an ascending sequence. */
  function Insert(rows: seq<Row>, r: Row): seq<Row> {
    if rows == [] || rows[|rows| - 1].score <= r.score then rows + [r]
    else Insert(rows[..|rows| - 1], r) + [rows[|rows| - 1]]
  }

  /** The stable sort by score. */
  function Sort(rows: seq<Row>): seq<Row> {
    if rows == [] then [] else Insert(Sort(rows[..|rows| - 1]), rows[|rows| - 1])
  }

  /** Distinct scores in ascending order with their counts; the greatest comes last. */
  datatype Groups = NoGroup | Group(lower: Groups, value: real, count: nat)

  /** The groups of an ascending sequence. */
  function Unique(rows: seq<Row>): Groups {
    if rows == [] then NoGroup
    else
      var groups, x := Unique(rows[..|rows| - 1]), rows[|rows| - 1].score;
      if groups.Group? && groups.value == x then groups.(count := groups.count + 1)
      else Group(groups, x, 1)
  }

  /** Cumulative count up to and including the last group. */
  function Cumulative(groups: Groups): nat {
    if groups.NoGroup? then 0 else groups.count + Cumulative(groups.lower)
  }

  /** The groups up to the one of score `x`. */
  function UpTo(groups: Groups, x: real): Groups {
    if groups.NoGroup? || groups.value <= x then groups else UpTo(groups.lower, x)
  }

  /** Cumulative count less half the number of other ties. */
  function MidRank(groups: Groups, x: real): real {
    var g := UpTo(groups, x);
    if g.NoGroup? then 0.0
    else (Cumulative(g) as real) - ((g.count as real) - 1.0) / 2.0
  }

  function RankSum(rows: seq<Row>, groups: Groups): real {
    if rows == [] then 0.0
    else
      var last := rows[|rows| - 1];
      RankSum(rows[..|rows| - 1], groups) + if last.positive then MidRank(groups, last.score) else 0.0
  }

  function AucRoc(rows: seq<Row>): real
    requires 0 < Positives(rows) < |rows|
  {
    var sorted := Sort(rows);
    FromRanks(RankSum(sorted, Unique(sorted)), Positives(rows), |rows| - Positives(rows))
  }

  function FromRanks(ranks: real, positives: nat, negatives: nat): real
    requires positives > 0 && negatives > 0
  {
    var npos, nneg := positives as real, negatives as real;
    (ranks - npos * (npos + 1.0) / 2.0) / (npos * nneg)
  }

  // ---------------------------------------------------------------------- sorting

  lemma {:induction false} InsertSorts(rows: seq<Row>, r: Row)
    requires Ascending(rows)
    ensures Ascending(Insert(rows, r)) && |Insert(rows, r)| == |rows| + 1
    ensures forall x | x in Insert(rows, r) :: x in rows || x == r
  {
    if rows != [] && rows[|rows| - 1].score > r.score {
      var shorter, last := rows[..|rows| - 1], rows[|rows| - 1];
      InsertSorts(shorter, r);
      forall i | 0 <= i < |Insert(shorter, r)|
        ensures Insert(shorter, r)[i].score <= last.score
      {
        var x := Insert(shorter, r)[i];
        assert x in shorter || x == r;
      }
    }
  }

  lemma {:induction false} SortSorts(rows: seq<Row>)
    ensures Ascending(Sort(rows)) && |Sort(rows)| == |rows|
  {
    if rows != [] {
      SortSorts(rows[..|rows| - 1]);
      InsertSorts(Sort(rows[..|rows| - 1]), rows[|rows| - 1]);
    }
  }

  /** All sums here add up the same way in whatever order the rows come. */
  lemma {:induction false} InsertSums(rows: seq<Row>, r: Row, x: real, others: seq<Row>, cls: bool)
    ensures Against(x, Insert(rows, r), cls) == Against(x, rows + [r], cls)
    ensures Points(Insert(rows, r), others, cls) == Points(rows + [r], others, cls)
    ensures Positives(Insert(rows, r)) == Positives(rows + [r])
  {
    assert (rows + [r])[..|rows|] == rows;
    if rows != [] && rows[|rows| - 1].score > r.score {
      var shorter, last := rows[..|rows| - 1], rows[|rows| - 1];
      InsertSums(shorter, r, x, others, cls);
      assert (shorter + [r])[..|shorter|] == shorter;
      assert (Insert(shorter, r) + [last])[..|Insert(shorter, r)|] == Insert(shorter, r);
    }
  }

  lemma {:induction false} SortSums(rows: seq<Row>, x: real, others: seq<Row>, cls: bool)
    ensures Against(x, Sort(rows), cls) == Against(x, rows, cls)
    ensures Points(Sort(rows), others, cls) == Points(rows, others, cls)
    ensures Positives(Sort(rows)) == Positives(rows)
  {
    if rows != [] {
      var shorter, last := rows[..|rows| - 1], rows[|rows| - 1];
      SortSums(shorter, x, others, cls);
      InsertSums(Sort(shorter), last, x, others, cls);
      assert (Sort(shorter) + [last])[..|Sort(shorter)|] == Sort(shorter);
    }
  }

  lemma {:induction false} PointsOfSorted(rows: seq<Row>, others: seq<Row>, cls: bool)
    ensures Points(rows, Sort(others), cls) == Points(rows, others, cls)
  {
    if rows != [] {
      PointsOfSorted(rows[..|rows| - 1], others, cls);
      SortSums(others, rows[|rows| - 1].score, [], cls);
    }
  }

  // ------------------------------------------------------------ a midrank counts beaten rows

  /** Points of `x` against all rows, in terms of the groups up to `x`. */
  lemma {:induction false} PointsByGroup(rows: seq<Row>, x: real)
    requires Ascending(rows)
    ensures var g := UpTo(Unique(rows), x);
      Against(x, rows, true) + Against(x, rows, false) ==
        if g.NoGroup? then 0.0
        else (Cumulative(g) as real) - if g.value == x then (g.count as real) / 2.0 else 0.0
  {
    if rows != [] {
      var shorter := rows[..|rows| - 1];
      PointsByGroup(shorter, x);
      if shorter != [] {
        assert shorter[|shorter| - 1] == rows[|rows| - 2];
      }
    }
  }

  /** A score that occurs has a group of its own. */
  lemma {:induction false} OwnGroup(rows: seq<Row>, r: Row)
    requires Ascending(rows) && r in rows
    ensures UpTo(Unique(rows), r.score).Group? && UpTo(Unique(rows), r.score).value == r.score
  {
    var shorter, last := rows[..|rows| - 1], rows[|rows| - 1];
    if r.score < last.score {
      assert r in shorter;
      OwnGroup(shorter, r);
    }
  }

  /** A midrank is half a point for the row itself and its points against every row. */
  lemma MidRankCounts(rows: seq<Row>, r: Row)
    requires Ascending(rows) && r in rows
    ensures MidRank(Unique(rows), r.score) == 0.5 + Against(r.score, rows, true) + Against(r.score, rows, false)
  {
    PointsByGroup(rows, r.score);
    OwnGroup(rows, r);
  }

  lemma {:induction false} RankSumCounts(rows: seq<Row>, sorted: seq<Row>)
    requires Ascending(sorted) && forall r | r in rows :: r in sorted
    ensures RankSum(rows, Unique(sorted)) ==
      (Positives(rows) as real) / 2.0 + Points(rows, sorted, true) + Points(rows, sorted, false)
  {
    if rows != [] {
      var shorter, last := rows[..|rows| - 1], rows[|rows| - 1];
      RankSumCounts(shorter, sorted);
      if last.positive {
        MidRankCounts(sorted, last);
      }
    }
  }

  // ------------------------------------------------- positives share out a point a pair

  /** Points of `x` against positives, and theirs against `x`, are one for each of them. */
  lemma {:induction false} PointsBothWays(rows: seq<Row>, x: Row)
    requires x.positive
    ensures Against(x.score, rows, true) + Points(rows, [x], true) == Positives(rows) as real
  {
    if rows != [] {
      PointsBothWays(rows[..|rows| - 1], x);
      AgainstOne(rows[|rows| - 1].score, x, true);
    }
  }

  lemma AgainstOne(s: real, x: Row, cls: bool)
    ensures Against(s, [x], cls) == if x.positive == cls then Beat(s, x.score) else 0.0
  {
  }

  lemma {:induction false} PointsAgainstMore(rows: seq<Row>, others: seq<Row>, x: Row, cls: bool)
    ensures Points(rows, others + [x], cls) == Points(rows, others, cls) + Points(rows, [x], cls)
  {
    if rows != [] {
      PointsAgainstMore(rows[..|rows| - 1], others, x, cls);
      AgainstOne(rows[|rows| - 1].score, x, cls);
    }
  }

  lemma {:induction false} PositivesShare(rows: seq<Row>)
    ensures Points(rows, rows, true) == (Positives(rows) * Positives(rows)) as real / 2.0
  {
    if rows != [] {
      var shorter, last := rows[..|rows| - 1], rows[|rows| - 1];
      assert rows == shorter + [last];
      PositivesShare(shorter);
      PointsAgainstMore(shorter, shorter, last, true);
      assert [last][..0] == [];
      if last.positive {
        PointsBothWays(shorter, last);
        var n := Positives(shorter);
        assert (n + 1) * (n + 1) == n * n + 2 * n + 1;
      } else {
        NoPoints(shorter, last);
      }
    }
  }

  lemma {:induction false} NoPoints(rows: seq<Row>, x: Row)
    requires !x.positive
    ensures Points(rows, [x], true) == 0.0
  {
    if rows != [] {
      NoPoints(rows[..|rows| - 1], x);
      AgainstOne(rows[|rows| - 1].score, x, true);
    }
  }

  // ---------------------------------------------------------------------- the theorem

  /** What the rank sum has beyond the positives' own ranks are the points against negatives. */
  lemma RankSumIsPoints(rows: seq<Row>)
    ensures RankSum(Sort(rows), Unique(Sort(rows))) ==
      (Positives(rows) as real) / 2.0 + (Positives(rows) * Positives(rows)) as real / 2.0 + Points(rows, rows, false)
  {
    var sorted := Sort(rows);
    SortSorts(rows);
    RankSumCounts(sorted, sorted);
    PositivesShare(sorted);
    SortSums(rows, 0.0, sorted, true);
    SortSums(rows, 0.0, sorted, false);
    PointsOfSorted(rows, rows, false);
  }

  lemma TakeOwnRanks(n: nat, m: nat, ranks: real, points: real)
    requires n > 0 && m > 0
    requires ranks == (n as real) / 2.0 + (n * n) as real / 2.0 + points
    ensures FromRanks(ranks, n, m) * ((n * m) as real) == points
  {
  }

  /** For all scores, with ties, and both classes present: the midrank form times the number
      of pairs is the points that positives win against negatives. */
  lemma AucIsPairwise(rows: seq<Row>, npos: nat, nneg: nat)
    requires npos == Positives(rows) && npos + nneg == |rows| && npos > 0 && nneg > 0
    ensures AucRoc(rows) * ((npos * nneg) as real) == Points(rows, rows, false)
  {
    var ranks, points := RankSum(Sort(rows), Unique(Sort(rows))), Points(rows, rows, false);
    assert AucRoc(rows) == FromRanks(ranks, npos, nneg);
    assert FromRanks(ranks, npos, nneg) * ((npos * nneg) as real) == points by {
      RankSumIsPoints(rows);
      TakeOwnRanks(npos, nneg, ranks, points);
    }
  }
}
