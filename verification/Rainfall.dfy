/** The rain events of a station, over its readings alone.

    Chains are defined over the wet readings, and their sums over the rows of one number.
    Here an event is a range of all readings, dry ones included, with its rain, its wet
    readings and its observed slots counted in that range. */
module Rainfall {
  import opened Runs
  import opened Events

  predicate IsWet(readings: seq<Reading>, i: int) {
    0 <= i < |readings| && readings[i].rain > 0.0
  }

  /** From one wet reading to another: each has its next within an hour and a slot, and no other
      wet reading is as near to the first or the last. */
  ghost predicate RainFrom(readings: seq<Reading>, p: int, q: int) {
    && IsWet(readings, p) && IsWet(readings, q) && p <= q
    && (forall i | p <= i < q && IsWet(readings, i) :: HasNext(readings, i, q))
    && (forall i | i < p && IsWet(readings, i) :: readings[p].slot - readings[i].slot > 3900)
    && (forall i | q < i && IsWet(readings, i) :: readings[i].slot - readings[q].slot > 3900)
  }

  ghost predicate HasNext(readings: seq<Reading>, i: int, q: int)
    requires IsWet(readings, i)
  {
    exists j :: i < j <= q && IsWet(readings, j) && readings[j].slot - readings[i].slot <= 3900
  }

  function RainBetween(readings: seq<Reading>, from: nat, n: nat): real
    requires n <= |readings|
  {
    if n <= from then 0.0
    else RainBetween(readings, from, n - 1) + if readings[n - 1].rain > 0.0 then readings[n - 1].rain else 0.0
  }

  function WetBetween(readings: seq<Reading>, from: nat, n: nat): nat
    requires n <= |readings|
  {
    if n <= from then 0
    else WetBetween(readings, from, n - 1) + if readings[n - 1].rain > 0.0 then 1 else 0
  }

  /** The event from reading `p` to reading `q`. */
  ghost predicate IsEvent(readings: seq<Reading>, ev: Event, p: int, q: int) {
    && RainFrom(readings, p, q)
    && ev.first == readings[p].slot && ev.last == readings[q].slot
    && ev.depth == RainBetween(readings, p, q + 1) && ev.wetCount == WetBetween(readings, p, q + 1)
    && ev.observed == q - p + 1
    && (ev.complete <==> EverySlot(readings, ev.first, ev.last))
  }

  /** The place of a reading among the wet ones. */
  lemma PlaceOf(readings: seq<Reading>, p: int) returns (lo: nat)
    requires IsWet(readings, p)
    ensures lo < |Wet(readings)| && Wet(readings)[lo] == p
  {
    WithinHas(WetMarks(readings), 0, |readings|);
    assert p in Wet(readings);
    lo :| lo < |Wet(readings)| && Wet(readings)[lo] == p;
  }

  lemma PlacesAreWet(readings: seq<Reading>, lo: nat)
    requires lo < |Wet(readings)|
    ensures IsWet(readings, Wet(readings)[lo])
  {
    WithinHas(WetMarks(readings), 0, |readings|);
    assert Wet(readings)[lo] in Wet(readings);
  }

  lemma ChainIsRain(readings: seq<Reading>, lo: nat, hi: nat)
    requires Station(readings) && Chain(WetSlots(readings, Wet(readings)), LongestGap, lo, hi)
    ensures RainFrom(readings, Wet(readings)[lo], Wet(readings)[hi])
  {
    var wet := Wet(readings);
    var slots, p, q := WetSlots(readings, wet), wet[lo], wet[hi];
    WetInOrder(readings);
    PlacesAreWet(readings, lo);
    PlacesAreWet(readings, hi);
    forall i | IsWet(readings, i)
      ensures p <= i < q ==> HasNext(readings, i, q)
      ensures i < p ==> readings[p].slot - readings[i].slot > 3900
      ensures q < i ==> readings[i].slot - readings[q].slot > 3900
    {
      var m := PlaceOf(readings, i);
      if p <= i < q {
        PlacesAreWet(readings, m + 1);
        assert !Apart(slots, LongestGap, m + 1);
        assert i < wet[m + 1] <= q && IsWet(readings, wet[m + 1]);
      } else if i < p {
        assert Apart(slots, LongestGap, lo) && slots[m] <= slots[lo - 1];
      } else if q < i {
        assert Apart(slots, LongestGap, hi + 1) && slots[hi + 1] <= slots[m];
      }
    }
  }

  lemma NextIsNear(readings: seq<Reading>, j: nat, q: int)
    requires Station(readings) && 0 < j < |Wet(readings)|
    requires IsWet(readings, Wet(readings)[j - 1]) && HasNext(readings, Wet(readings)[j - 1], q)
    ensures !Apart(WetSlots(readings, Wet(readings)), LongestGap, j)
  {
    var wet, before := Wet(readings), Wet(readings)[j - 1];
    WetInOrder(readings);
    var i :| before < i <= q && IsWet(readings, i) && readings[i].slot - readings[before].slot <= 3900;
    var m := PlaceOf(readings, i);
    assert m >= j;
    assert j < m ==> WetSlots(readings, wet)[j] < WetSlots(readings, wet)[m];
  }

  lemma EndsAreApart(readings: seq<Reading>, lo: nat, hi: nat)
    requires Station(readings) && lo <= hi < |Wet(readings)|
    requires RainFrom(readings, Wet(readings)[lo], Wet(readings)[hi])
    ensures var slots := WetSlots(readings, Wet(readings));
      (lo > 0 ==> Apart(slots, LongestGap, lo)) && (hi + 1 < |slots| ==> Apart(slots, LongestGap, hi + 1))
  {
    var wet := Wet(readings);
    WetInOrder(readings);
    if lo > 0 {
      PlacesAreWet(readings, lo - 1);
    }
    if hi + 1 < |wet| {
      PlacesAreWet(readings, hi + 1);
    }
  }

  lemma RainIsChain(readings: seq<Reading>, lo: nat, hi: nat)
    requires Station(readings) && lo <= hi < |Wet(readings)|
    requires RainFrom(readings, Wet(readings)[lo], Wet(readings)[hi])
    ensures Chain(WetSlots(readings, Wet(readings)), LongestGap, lo, hi)
  {
    var wet := Wet(readings);
    var slots := WetSlots(readings, wet);
    forall j | lo < j <= hi ensures !Apart(slots, LongestGap, j) {
      InsideIsNear(readings, lo, hi, j);
    }
    EndsAreApart(readings, lo, hi);
  }

  lemma InsideIsNear(readings: seq<Reading>, lo: nat, hi: nat, j: nat)
    requires Station(readings) && lo < j <= hi < |Wet(readings)|
    requires RainFrom(readings, Wet(readings)[lo], Wet(readings)[hi])
    ensures !Apart(WetSlots(readings, Wet(readings)), LongestGap, j)
  {
    WetInOrder(readings);
    PlacesAreWet(readings, j - 1);
    NextIsNear(readings, j, Wet(readings)[hi]);
  }

  /** Sums over a stretch of readings are sums over the wet ones in it. */
  lemma {:induction false} SumsOfFirst(readings: seq<Reading>, n: nat)
    requires n <= |readings|
    ensures var w := Within(WetMarks(readings), 0, n);
      && RowsOf(w, |readings|)
      && RainBetween(readings, 0, n) == Total(Rain(readings), w) && WetBetween(readings, 0, n) == |w|
  {
    if n > 0 {
      SumsOfFirst(readings, n - 1);
      TotalOfMore(Rain(readings), Within(WetMarks(readings), 0, n - 1), n - 1);
    }
  }

  lemma {:induction false} SumsSplit(readings: seq<Reading>, from: nat, n: nat)
    requires from <= n <= |readings|
    ensures RainBetween(readings, 0, n) == RainBetween(readings, 0, from) + RainBetween(readings, from, n)
    ensures WetBetween(readings, 0, n) == WetBetween(readings, 0, from) + WetBetween(readings, from, n)
    decreases n
  {
    if n > from {
      SumsSplit(readings, from, n - 1);
    }
  }

  /** The wet readings before row `n` are the first of all wet readings. */
  lemma {:induction false} FirstOfWithin(marks: seq<bool>, n: nat, m: nat)
    requires n <= m <= |marks|
    ensures Within(marks, 0, n) <= Within(marks, 0, m)
    decreases m
  {
    if n < m {
      FirstOfWithin(marks, n, m - 1);
    }
  }

  lemma WetBeforePlace(readings: seq<Reading>, lo: nat)
    requires lo < |Wet(readings)|
    ensures var p := Wet(readings)[lo];
      && |Within(WetMarks(readings), 0, p)| == lo && |Within(WetMarks(readings), 0, p + 1)| == lo + 1
  {
    var marks, wet := WetMarks(readings), Wet(readings);
    var p := wet[lo];
    PlacesAreWet(readings, lo);
    WithinRises(marks, 0, |readings|);
    FirstOfWithin(marks, p, |readings|);
    FirstOfWithin(marks, p + 1, |readings|);
    var before := Within(marks, 0, p);
    assert Within(marks, 0, p + 1) == before + [p];
    SamePlace(wet, |before|, lo);
  }

  lemma SamePlace(g: seq<nat>, a: nat, b: nat)
    requires Rising(g) && a < |g| && b < |g| && g[a] == g[b]
    ensures a == b
  {
  }

  /** What the first `m` wet readings add up to, counted among the wet ones or among all. */
  lemma FirstOfTotal(readings: seq<Reading>, n: nat)
    requires n <= |readings|
    ensures var w := Within(WetMarks(readings), 0, n);
      |w| <= |Wet(readings)| && TotalOfFirst(Rain(readings), Wet(readings), |w|) == RainBetween(readings, 0, n)
  {
    var w := Within(WetMarks(readings), 0, n);
    FirstOfWithin(WetMarks(readings), n, |readings|);
    SumsOfFirst(readings, n);
    SameFirst(Rain(readings), w, Wet(readings), |w|);
  }

  lemma {:induction false} TotalOfInterval(values: seq<real>, wet: seq<nat>, picked: seq<real>, lo: nat, n: nat)
    requires RowsOf(wet, |values|) && |picked| == |wet| && lo <= n <= |wet|
    requires forall j | 0 <= j < |wet| :: picked[j] == values[wet[j]]
    ensures RowsOf(Interval(lo, n), |picked|)
    ensures Total(picked, Interval(lo, n)) == TotalOfFirst(values, wet, n) - TotalOfFirst(values, wet, lo)
    decreases n
  {
    if n > lo {
      TotalOfInterval(values, wet, picked, lo, n - 1);
      var shorter := Interval(lo, n - 1);
      TotalOfMore(picked, shorter, n - 1);
      assert Interval(lo, n) == shorter + [n - 1];
      assert TotalOfFirst(values, wet, n) == TotalOfFirst(values, wet, n - 1) + picked[n - 1];
    }
  }

  lemma RainOfPlaces(readings: seq<Reading>, lo: nat, hi: nat)
    requires lo <= hi < |Wet(readings)| && Wet(readings)[lo] <= Wet(readings)[hi]
    ensures RainBetween(readings, Wet(readings)[lo], Wet(readings)[hi] + 1) ==
      TotalOfFirst(Rain(readings), Wet(readings), hi + 1) - TotalOfFirst(Rain(readings), Wet(readings), lo)
  {
    var p, q := Wet(readings)[lo], Wet(readings)[hi];
    WetBeforePlace(readings, lo);
    WetBeforePlace(readings, hi);
    FirstOfTotal(readings, p);
    FirstOfTotal(readings, q + 1);
    SumsSplit(readings, p, q + 1);
  }

  lemma DepthOfChain(readings: seq<Reading>, lo: nat, hi: nat)
    requires lo <= hi < |Wet(readings)| && Wet(readings)[lo] <= Wet(readings)[hi]
    ensures Report(readings, lo, hi).depth == RainBetween(readings, Wet(readings)[lo], Wet(readings)[hi] + 1)
  {
    RainOfPlaces(readings, lo, hi);
    TotalOfInterval(Rain(readings), Wet(readings), WetRain(readings, Wet(readings)), lo, hi + 1);
  }

  lemma CountOfChain(readings: seq<Reading>, lo: nat, hi: nat)
    requires lo <= hi < |Wet(readings)| && Wet(readings)[lo] <= Wet(readings)[hi]
    ensures hi - lo + 1 == WetBetween(readings, Wet(readings)[lo], Wet(readings)[hi] + 1)
  {
    var p, q := Wet(readings)[lo], Wet(readings)[hi];
    WetBeforePlace(readings, lo);
    WetBeforePlace(readings, hi);
    SumsOfFirst(readings, p);
    SumsOfFirst(readings, q + 1);
    SumsSplit(readings, p, q + 1);
  }

  lemma ReportIsEvent(readings: seq<Reading>, lo: nat, hi: nat)
    requires Station(readings) && Chain(WetSlots(readings, Wet(readings)), LongestGap, lo, hi)
    ensures IsEvent(readings, Report(readings, lo, hi), Wet(readings)[lo], Wet(readings)[hi])
  {
    WetInOrder(readings);
    ChainIsRain(readings, lo, hi);
    DepthOfChain(readings, lo, hi);
    CountOfChain(readings, lo, hi);
    CompleteIsEverySlot(readings, Wet(readings)[lo], Wet(readings)[hi]);
  }

  ghost predicate IsRainEvent(readings: seq<Reading>, ev: Event) {
    exists p, q :: IsEvent(readings, ev, p, q)
  }

  /** The table over the readings alone: exactly the events of the station. */
  lemma EventTableIsRain(readings: seq<Reading>, ev: Event)
    requires Station(readings)
    ensures ev in EventTable(readings) <==> IsRainEvent(readings, ev)
  {
    if ev in EventTable(readings) {
      var lo, hi := EventsAreChains(readings, LastEvent(readings), ev);
      ReportIsEvent(readings, lo, hi);
    }
    if p, q :| IsEvent(readings, ev, p, q) {
      RainIsListed(readings, ev, p, q);
    }
  }

  lemma RainIsListed(readings: seq<Reading>, ev: Event, p: int, q: int)
    requires Station(readings) && IsEvent(readings, ev, p, q)
    ensures ev in EventTable(readings)
  {
    var lo := PlaceOf(readings, p);
    var hi := PlaceOf(readings, q);
    WetInOrder(readings);
    RainIsChain(readings, lo, hi);
    ReportIsEvent(readings, lo, hi);
    ChainsAreEvents(readings, lo, hi);
    assert ev == Report(readings, lo, hi);
  }
}
