/** Runs over ordered rows, numbered by a running count of marks.

    A cumulative sum over a window counts the marks up to each row, and rows are grouped by
    that number. A group is a stretch of rows without a mark. The sums of the groups add up
    to the sum of all rows. */
module Runs {
  /** The marks among the first `n` rows. */
  function RunningCount(marks: seq<bool>, n: nat): nat
    requires n <= |marks|
  {
    if n == 0 then 0 else RunningCount(marks, n - 1) + if marks[n - 1] then 1 else 0
  }

  /** The number of row `i` counts its own mark. */
  function Number(marks: seq<bool>, i: nat): nat
    requires i < |marks|
  {
    RunningCount(marks, i + 1)
  }

  ghost predicate MarkIn(marks: seq<bool>, after: int, upTo: int)
    requires 0 <= after && upTo < |marks|
  {
    exists k | after < k <= upTo :: marks[k]
  }

  /** Two rows share their number exactly when no mark comes after the first, up to the second. */
  lemma {:induction false} SameNumber(marks: seq<bool>, i: nat, j: nat)
    requires i <= j < |marks|
    ensures Number(marks, i) <= Number(marks, j)
    ensures Number(marks, i) == Number(marks, j) <==> !MarkIn(marks, i, j)
    decreases j
  {
    if i < j {
      SameNumber(marks, i, j - 1);
      assert MarkIn(marks, i, j) <==> MarkIn(marks, i, j - 1) || marks[j];
    }
  }

  // -------------------------------------------------------------------------- groups

  predicate InGroup(marks: seq<bool>, kept: seq<bool>, number: nat, i: nat)
    requires |marks| == |kept| && i < |marks|
  {
    kept[i] && Number(marks, i) == number
  }

  /** The kept rows of one number among the first `n`. */
  function Group(marks: seq<bool>, kept: seq<bool>, number: nat, n: nat): (g: seq<nat>)
    requires n <= |marks| == |kept|
    ensures RowsOf(g, n)
  {
    if n == 0 then []
    else
      var g := Group(marks, kept, number, n - 1);
      if InGroup(marks, kept, number, n - 1) then g + [n - 1] else g
  }

  lemma {:induction false} GroupHas(marks: seq<bool>, kept: seq<bool>, number: nat, n: nat)
    requires n <= |marks| == |kept|
    ensures forall i: nat :: i in Group(marks, kept, number, n) <==> i < n && InGroup(marks, kept, number, i)
  {
    if n > 0 {
      GroupHas(marks, kept, number, n - 1);
    }
  }

  /** The kept rows from `lo` to before `n`. */
  function Within(kept: seq<bool>, lo: nat, n: nat): (g: seq<nat>)
    requires n <= |kept|
    ensures RowsOf(g, n)
  {
    if n <= lo then []
    else
      var g := Within(kept, lo, n - 1);
      if kept[n - 1] then g + [n - 1] else g
  }

  lemma {:induction false} WithinHas(kept: seq<bool>, lo: nat, n: nat)
    requires n <= |kept|
    ensures forall i: nat :: i in Within(kept, lo, n) <==> lo <= i < n && kept[i]
  {
    if n > lo {
      WithinHas(kept, lo, n - 1);
    }
  }

  predicate RowsOf(g: seq<nat>, n: nat) {
    forall k | 0 <= k < |g| :: g[k] < n
  }

  predicate Rising(g: seq<nat>) {
    forall a, b | 0 <= a < b < |g| :: g[a] < g[b]
  }

  lemma {:induction false} GroupRises(marks: seq<bool>, kept: seq<bool>, number: nat, n: nat)
    requires n <= |marks| == |kept|
    ensures Rising(Group(marks, kept, number, n))
  {
    if n > 0 {
      GroupRises(marks, kept, number, n - 1);
    }
  }

  lemma {:induction false} WithinRises(kept: seq<bool>, lo: nat, n: nat)
    requires n <= |kept|
    ensures Rising(Within(kept, lo, n))
  {
    if n > lo {
      WithinRises(kept, lo, n - 1);
    }
  }

  lemma EmptyTogether(g: seq<nat>, g': seq<nat>)
    requires forall i :: i in g <==> i in g'
    ensures g == [] <==> g' == []
  {
    if g != [] {
      assert g[0] in g;
    }
    if g' != [] {
      assert g'[0] in g';
    }
  }

  /** Rising sequences of the same rows are the same. */
  lemma {:induction false} RisingIsUnique(g: seq<nat>, g': seq<nat>)
    requires Rising(g) && Rising(g') && forall i :: i in g <==> i in g'
    ensures g == g'
  {
    EmptyTogether(g, g');
    if g != [] && g' != [] {
      var m, m' := |g| - 1, |g'| - 1;
      assert g[m] in g && g'[m'] in g';
      assert g[m] == g'[m'];
      forall i ensures i in g[..m] <==> i in g'[..m'] {
        assert i in g <==> i in g[..m] || i == g[m];
        assert i in g' <==> i in g'[..m'] || i == g'[m'];
      }
      RisingIsUnique(g[..m], g'[..m']);
      assert g == g[..m] + [g[m]] && g' == g'[..m'] + [g'[m']];
    }
  }

  // ------------------------------------------------------------------------ stretches

  /** From kept row `lo` to kept row `hi` without a mark after the first, and with a mark
      towards every kept row outside. */
  ghost predicate Stretch(marks: seq<bool>, kept: seq<bool>, lo: int, hi: int)
    requires |marks| == |kept|
  {
    0 <= lo <= hi < |marks| && kept[lo] && kept[hi] && !MarkIn(marks, lo, hi)
    && (forall k | 0 <= k < lo && kept[k] :: MarkIn(marks, k, lo))
    && (forall k | hi < k < |marks| && kept[k] :: MarkIn(marks, hi, k))
  }

  /** A stretch is a group, ... */
  lemma StretchIsGroup(marks: seq<bool>, kept: seq<bool>, lo: nat, hi: nat)
    requires |marks| == |kept| && Stretch(marks, kept, lo, hi)
    ensures Group(marks, kept, Number(marks, lo), |marks|) == Within(kept, lo, hi + 1)
  {
    var g, w := Group(marks, kept, Number(marks, lo), |marks|), Within(kept, lo, hi + 1);
    SameNumber(marks, lo, hi);
    GroupHas(marks, kept, Number(marks, lo), |marks|);
    WithinHas(kept, lo, hi + 1);
    forall i: nat ensures i in g <==> i in w {
      if i < |marks| && kept[i] {
        if i < lo {
          SameNumber(marks, i, lo);
        } else if i <= hi {
          SameNumber(marks, lo, i);
          SameNumber(marks, i, hi);
        } else {
          SameNumber(marks, hi, i);
        }
      }
    }
    GroupRises(marks, kept, Number(marks, lo), |marks|);
    WithinRises(kept, lo, hi + 1);
    RisingIsUnique(g, w);
  }

  /** ... and a group with a row is a stretch, from its first row to its last. */
  lemma GroupIsStretch(marks: seq<bool>, kept: seq<bool>, number: nat) returns (lo: nat, hi: nat)
    requires |marks| == |kept| && Group(marks, kept, number, |marks|) != []
    ensures Stretch(marks, kept, lo, hi) && Number(marks, lo) == number
    ensures Group(marks, kept, number, |marks|) == Within(kept, lo, hi + 1)
  {
    var g := Group(marks, kept, number, |marks|);
    GroupRises(marks, kept, number, |marks|);
    GroupHas(marks, kept, number, |marks|);
    lo, hi := g[0], g[|g| - 1];
    assert lo in g && hi in g;
    SameNumber(marks, lo, hi);
    forall k | 0 <= k < |marks| && kept[k]
      ensures k < lo ==> MarkIn(marks, k, lo)
      ensures k > hi ==> MarkIn(marks, hi, k)
    {
      if k < lo {
        assert k !in g;
        SameNumber(marks, k, lo);
      } else if k > hi {
        assert k !in g;
        SameNumber(marks, hi, k);
      }
    }
    StretchIsGroup(marks, kept, lo, hi);
  }

  // -------------------------------------------------------------------------- chains

  predicate Apart(values: seq<int>, limit: int, j: int)
    requires 0 < j < |values|
  {
    values[j] - values[j - 1] > limit
  }

  /** Values `lo` to `hi` with no gap above the limit inside and one on either side. */
  predicate Chain(values: seq<int>, limit: int, lo: int, hi: int) {
    0 <= lo <= hi < |values|
    && (forall j | lo < j <= hi :: !Apart(values, limit, j))
    && (lo > 0 ==> Apart(values, limit, lo)) && (hi + 1 < |values| ==> Apart(values, limit, hi + 1))
  }

  /** A chain that begins later begins after a gap above the limit. */
  lemma ChainsAreApart(values: seq<int>, limit: int, a: nat, b: nat, lo: nat, hi: nat)
    requires Ascending(values) && Chain(values, limit, a, b) && Chain(values, limit, lo, hi) && a < lo
    ensures values[b] + limit < values[lo]
  {
    assert Apart(values, limit, lo);
    assert b < lo;
  }

  // ------------------------------------------------------------------- sums over groups

  function Total(values: seq<real>, g: seq<nat>): real
    requires RowsOf(g, |values|)
  {
    TotalOfFirst(values, g, |g|)
  }

  function TotalOfFirst(values: seq<real>, g: seq<nat>, n: nat): real
    requires RowsOf(g, |values|) && n <= |g|
  {
    if n == 0 then 0.0 else TotalOfFirst(values, g, n - 1) + values[g[n - 1]]
  }

  /** What the groups numbered up to `last` add up to. */
  function TotalOfGroups(values: seq<real>, marks: seq<bool>, kept: seq<bool>, last: nat, n: nat): real
    requires n <= |values| == |marks| == |kept|
  {
    Total(values, Group(marks, kept, last, n)) +
      if last == 0 then 0.0 else TotalOfGroups(values, marks, kept, last - 1, n)
  }

  lemma TotalOfMore(values: seq<real>, g: seq<nat>, i: nat)
    requires RowsOf(g, |values|) && i < |values|
    ensures RowsOf(g + [i], |values|) && Total(values, g + [i]) == Total(values, g) + values[i]
  {
    SameFirst(values, g, g + [i], |g|);
  }

  lemma {:induction false} SameFirst(values: seq<real>, g: seq<nat>, g': seq<nat>, n: nat)
    requires RowsOf(g, |values|) && RowsOf(g', |values|) && n <= |g| && n <= |g'|
    requires forall k | 0 <= k < n :: g[k] == g'[k]
    ensures TotalOfFirst(values, g, n) == TotalOfFirst(values, g', n)
  {
    if n > 0 {
      SameFirst(values, g, g', n - 1);
    }
  }

  lemma {:induction false} OneMoreRow(values: seq<real>, marks: seq<bool>, kept: seq<bool>, last: nat, n: nat)
    requires 0 < n <= |values| == |marks| == |kept|
    ensures TotalOfGroups(values, marks, kept, last, n) == TotalOfGroups(values, marks, kept, last, n - 1) +
      if kept[n - 1] && Number(marks, n - 1) <= last then values[n - 1] else 0.0
  {
    TotalOfMore(values, Group(marks, kept, last, n - 1), n - 1);
    if last > 0 {
      OneMoreRow(values, marks, kept, last - 1, n);
    }
  }

  /** Grouping loses nothing and counts nothing twice. */
  lemma {:induction false} GroupsPartition(values: seq<real>, marks: seq<bool>, kept: seq<bool>, last: nat, n: nat)
    requires n <= |values| == |marks| == |kept| && RunningCount(marks, n) <= last
    ensures TotalOfGroups(values, marks, kept, last, n) == Total(values, Within(kept, 0, n))
  {
    if n > 0 {
      GroupsPartition(values, marks, kept, last, n - 1);
      OneMoreRow(values, marks, kept, last, n);
      TotalOfMore(values, Within(kept, 0, n - 1), n - 1);
    } else {
      NoRows(values, marks, kept, last);
    }
  }

  lemma {:induction false} NoRows(values: seq<real>, marks: seq<bool>, kept: seq<bool>, last: nat)
    requires |values| == |marks| == |kept|
    ensures TotalOfGroups(values, marks, kept, last, 0) == 0.0
  {
    if last > 0 {
      NoRows(values, marks, kept, last - 1);
    }
  }

  // ------------------------------------------------------------- least and greatest

  function Least(values: seq<int>, g: seq<nat>): int
    requires g != [] && RowsOf(g, |values|)
  {
    var last := g[|g| - 1];
    if |g| == 1 then values[last]
    else
      var rest := Least(values, g[..|g| - 1]);
      if values[last] < rest then values[last] else rest
  }

  function Greatest(values: seq<int>, g: seq<nat>): int
    requires g != [] && RowsOf(g, |values|)
  {
    var last := g[|g| - 1];
    if |g| == 1 then values[last]
    else
      var rest := Greatest(values, g[..|g| - 1]);
      if rest < values[last] then values[last] else rest
  }

  predicate Ascending(values: seq<int>) {
    forall i, j | 0 <= i < j < |values| :: values[i] < values[j]
  }

  lemma {:induction false} EndsOfGroup(values: seq<int>, g: seq<nat>)
    requires Ascending(values) && Rising(g) && g != [] && RowsOf(g, |values|)
    ensures g[0] in g && g[|g| - 1] in g
    ensures Least(values, g) == values[g[0]] && Greatest(values, g) == values[g[|g| - 1]]
  {
    if |g| > 1 {
      EndsOfGroup(values, g[..|g| - 1]);
    }
  }

  /** The first and last row of a stretch. */
  lemma {:induction false} EndsOfWithin(kept: seq<bool>, lo: nat, n: nat)
    requires lo < n <= |kept| && kept[lo]
    ensures var w := Within(kept, lo, n);
      w != [] && w[0] == lo && (kept[n - 1] ==> w[|w| - 1] == n - 1)
  {
    if n - 1 > lo {
      EndsOfWithin(kept, lo, n - 1);
    }
  }
}
