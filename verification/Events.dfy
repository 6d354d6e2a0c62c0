/** Rain events of one station, read from its readings in slot order.

    Wet readings are numbered by a running count of the gaps that are too long, and the
    readings of one number are an event. The events turn out to be the maximal chains of wet
    readings whose neighbours are near. */
module Events {
  import opened Runs

  // A slot is 300 seconds. Wet readings chain over a gap of an hour and a slot at most.
  const LongestGap: int := 3600 + 300

  datatype Reading = Reading(slot: int, rain: real)

  datatype Event = Event(first: int, last: int, depth: real, wetCount: nat, observed: int, complete: bool)

  /** One reading a slot, in slot order, on the five-minute grid. */
  predicate Station(readings: seq<Reading>) {
    Ascending(Slots(readings)) && forall i | 0 <= i < |readings| :: readings[i].slot % 300 == 0
  }

  function Slots(readings: seq<Reading>): (s: seq<int>)
    ensures |s| == |readings| && forall i | 0 <= i < |s| :: s[i] == readings[i].slot
  {
    seq(|readings|, i requires 0 <= i < |readings| => readings[i].slot)
  }

  // ----------------------------------------------------------------------- the table

  function WetMarks(readings: seq<Reading>): seq<bool> {
    seq(|readings|, i requires 0 <= i < |readings| => readings[i].rain > 0.0)
  }

  /** The row numbers of the wet readings. */
  function Wet(readings: seq<Reading>): (wet: seq<nat>)
    ensures RowsOf(wet, |readings|)
  {
    Within(WetMarks(readings), 0, |readings|)
  }

  function WetSlots(readings: seq<Reading>, wet: seq<nat>): seq<int>
    requires RowsOf(wet, |readings|)
  {
    seq(|wet|, j requires 0 <= j < |wet| && RowsOf(wet, |readings|) => readings[wet[j]].slot)
  }

  function WetRain(readings: seq<Reading>, wet: seq<nat>): seq<real>
    requires RowsOf(wet, |readings|)
  {
    seq(|wet|, j requires 0 <= j < |wet| && RowsOf(wet, |readings|) => readings[wet[j]].rain)
  }

  /** A wet reading starts an event when it has none before it, or a long gap. */
  function Starts(slots: seq<int>): seq<bool> {
    seq(|slots|, j requires 0 <= j < |slots| => j == 0 || Apart(slots, LongestGap, j))
  }

  function All(n: nat): (kept: seq<bool>)
    ensures |kept| == n && forall i | 0 <= i < n :: kept[i]
  {
    seq(n, i => true)
  }

  predicate Complete(first: int, last: int, observed: int) {
    observed as real == (last - first) as real / 300.0 + 1.0
  }

  /** The aggregate of the wet readings `g`, which are numbered as in `wet`. */
  function Aggregate(readings: seq<Reading>, wet: seq<nat>, g: seq<nat>): Event
    requires RowsOf(wet, |readings|) && RowsOf(g, |wet|) && g != []
  {
    var slots := WetSlots(readings, wet);
    var first, last := Least(slots, g), Greatest(slots, g);
    var observed := Greatest(wet, g) - Least(wet, g) + 1;
    Event(first, last, Total(WetRain(readings, wet), g), |g|, observed, Complete(first, last, observed))
  }

  function WetStarts(readings: seq<Reading>): seq<bool> {
    Starts(WetSlots(readings, Wet(readings)))
  }

  /** The wet readings of one event number. */
  function EventRows(readings: seq<Reading>, n: nat): seq<nat> {
    Group(WetStarts(readings), All(|Wet(readings)|), n, |Wet(readings)|)
  }

  /** The events numbered up to `n`. */
  function EventsUpTo(readings: seq<Reading>, n: nat): seq<Event> {
    if n == 0 then []
    else
      var g := EventRows(readings, n);
      EventsUpTo(readings, n - 1) + if g == [] then [] else [Aggregate(readings, Wet(readings), g)]
  }

  function LastEvent(readings: seq<Reading>): nat {
    RunningCount(WetStarts(readings), |Wet(readings)|)
  }

  function EventTable(readings: seq<Reading>): seq<Event> {
    EventsUpTo(readings, LastEvent(readings))
  }

  // ------------------------------------------------------------------ maximal chains

  lemma ChainIsStretch(slots: seq<int>, lo: int, hi: int)
    ensures Chain(slots, LongestGap, lo, hi) <==> Stretch(Starts(slots), All(|slots|), lo, hi)
  {
    var starts, kept := Starts(slots), All(|slots|);
    if 0 <= lo <= hi < |slots| {
      assert MarkIn(starts, lo, hi) <==> exists j | lo < j <= hi :: Apart(slots, LongestGap, j) by {
        assert forall j | lo < j <= hi :: starts[j] == Apart(slots, LongestGap, j);
      }
      if lo > 0 {
        assert starts[lo] == Apart(slots, LongestGap, lo);
        assert MarkIn(starts, lo - 1, lo) <==> starts[lo];
        assert starts[lo] ==> forall k | 0 <= k < lo :: MarkIn(starts, k, lo);
        assert kept[lo - 1];
      }
      if hi + 1 < |slots| {
        assert starts[hi + 1] == Apart(slots, LongestGap, hi + 1);
        assert MarkIn(starts, hi, hi + 1) <==> starts[hi + 1];
        assert starts[hi + 1] ==> forall k | hi < k < |slots| :: MarkIn(starts, hi, k);
        assert kept[hi + 1];
      }
    }
  }

  function Interval(lo: nat, n: nat): seq<nat> {
    if n <= lo then [] else Interval(lo, n - 1) + [n - 1]
  }

  lemma {:induction false} WithinAll(m: nat, lo: nat, n: nat)
    requires n <= m
    ensures Within(All(m), lo, n) == Interval(lo, n)
    ensures |Interval(lo, n)| == if n <= lo then 0 else n - lo
    ensures RowsOf(Interval(lo, n), m)
  {
    if n > lo {
      WithinAll(m, lo, n - 1);
    }
  }

  /** What a chain is reported as. */
  function Report(readings: seq<Reading>, lo: nat, hi: nat): Event
    requires lo <= hi < |Wet(readings)|
  {
    var wet := Wet(readings);
    var first, last, observed := readings[wet[lo]].slot, readings[wet[hi]].slot, (wet[hi] as int) - wet[lo] + 1;
    WithinAll(|wet|, lo, hi + 1);
    Event(first, last, Total(WetRain(readings, wet), Interval(lo, hi + 1)), hi - lo + 1, observed,
      Complete(first, last, observed))
  }

  lemma WetInOrder(readings: seq<Reading>)
    requires Station(readings)
    ensures var wet := Wet(readings);
      Rising(wet) && Ascending(wet) && Ascending(WetSlots(readings, wet))
  {
    WithinRises(WetMarks(readings), 0, |readings|);
    var wet, slots := Wet(readings), Slots(readings);
    forall i, j | 0 <= i < j < |wet| ensures readings[wet[i]].slot < readings[wet[j]].slot {
      assert slots[wet[i]] < slots[wet[j]];
    }
  }

  lemma EndsOfChain(values: seq<int>, lo: nat, hi: nat)
    requires Ascending(values) && lo <= hi < |values|
    ensures RowsOf(Interval(lo, hi + 1), |values|) && Interval(lo, hi + 1) != []
    ensures Least(values, Interval(lo, hi + 1)) == values[lo]
    ensures Greatest(values, Interval(lo, hi + 1)) == values[hi]
  {
    var kept := All(|values|);
    WithinAll(|values|, lo, hi + 1);
    WithinRises(kept, lo, hi + 1);
    EndsOfWithin(kept, lo, hi + 1);
    EndsOfGroup(values, Interval(lo, hi + 1));
  }

  lemma AggregateReports(readings: seq<Reading>, lo: nat, hi: nat)
    requires Station(readings) && lo <= hi < |Wet(readings)|
    ensures var wet := Wet(readings);
      var g := Within(All(|wet|), lo, hi + 1);
      g != [] && Aggregate(readings, wet, g) == Report(readings, lo, hi)
  {
    var wet := Wet(readings);
    WetInOrder(readings);
    WithinAll(|wet|, lo, hi + 1);
    EndsOfChain(WetSlots(readings, wet), lo, hi);
    EndsOfChain(wet, lo, hi);
  }

  ghost predicate IsReported(readings: seq<Reading>, ev: Event, lo: int, hi: int) {
    Chain(WetSlots(readings, Wet(readings)), LongestGap, lo, hi) && ev == Report(readings, lo, hi)
  }

  /** Every event is the report of a maximal chain, ... */
  lemma {:induction false} EventsAreChains(readings: seq<Reading>, n: nat, ev: Event) returns (lo: nat, hi: nat)
    requires Station(readings) && ev in EventsUpTo(readings, n)
    ensures IsReported(readings, ev, lo, hi) && Number(WetStarts(readings), lo) <= n
  {
    var g := EventRows(readings, n);
    if g != [] && ev == Aggregate(readings, Wet(readings), g) {
      lo, hi := EventIsChain(readings, n);
    } else {
      lo, hi := EventsAreChains(readings, n - 1, ev);
    }
  }

  lemma EventIsChain(readings: seq<Reading>, n: nat) returns (lo: nat, hi: nat)
    requires Station(readings) && EventRows(readings, n) != []
    ensures IsReported(readings, Aggregate(readings, Wet(readings), EventRows(readings, n)), lo, hi)
    ensures Number(WetStarts(readings), lo) == n
  {
    var wet := Wet(readings);
    lo, hi := GroupIsStretch(WetStarts(readings), All(|wet|), n);
    ChainIsStretch(WetSlots(readings, wet), lo, hi);
    AggregateReports(readings, lo, hi);
  }

  /** ... and every maximal chain is reported. */
  lemma ChainsAreEvents(readings: seq<Reading>, lo: nat, hi: nat)
    requires Station(readings) && Chain(WetSlots(readings, Wet(readings)), LongestGap, lo, hi)
    ensures Report(readings, lo, hi) in EventTable(readings)
  {
    var wet, starts := Wet(readings), WetStarts(readings);
    ChainIsStretch(WetSlots(readings, wet), lo, hi);
    StretchIsGroup(starts, All(|wet|), lo, hi);
    AggregateReports(readings, lo, hi);
    NumberIsCounted(starts, lo);
    IsListed(readings, Number(starts, lo), LastEvent(readings));
  }

  lemma NumberIsCounted(marks: seq<bool>, i: nat)
    requires i < |marks|
    ensures Number(marks, i) <= RunningCount(marks, |marks|)
    ensures marks[0] ==> Number(marks, i) >= 1
  {
    SameNumber(marks, i, |marks| - 1);
    SameNumber(marks, 0, i);
  }

  lemma {:induction false} IsListed(readings: seq<Reading>, k: nat, n: nat)
    requires 1 <= k <= n
    ensures var g := EventRows(readings, k);
      g != [] ==> Aggregate(readings, Wet(readings), g) in EventsUpTo(readings, n)
    decreases n
  {
    if k < n {
      IsListed(readings, k, n - 1);
    }
  }

  /** One event ends a long gap before the next begins. */
  predicate Separate(events: seq<Event>) {
    forall i, j | 0 <= i < j < |events| :: events[i].last + LongestGap < events[j].first
  }

  lemma {:induction false} EventsAreSeparate(readings: seq<Reading>, n: nat)
    requires Station(readings)
    ensures Separate(EventsUpTo(readings, n))
  {
    if n > 0 {
      EventsAreSeparate(readings, n - 1);
      if EventRows(readings, n) != [] {
        var ev := Aggregate(readings, Wet(readings), EventRows(readings, n));
        NextIsLater(readings, n, ev.first);
        OneMoreSeparate(EventsUpTo(readings, n - 1), ev);
      }
    }
  }

  lemma NextIsLater(readings: seq<Reading>, n: nat, first: int)
    requires Station(readings) && n > 0 && EventRows(readings, n) != []
    requires first == Aggregate(readings, Wet(readings), EventRows(readings, n)).first
    ensures forall earlier | earlier in EventsUpTo(readings, n - 1) :: earlier.last + LongestGap < first
  {
    forall earlier | earlier in EventsUpTo(readings, n - 1) ensures earlier.last + LongestGap < first {
      var a, b := EventsAreChains(readings, n - 1, earlier);
      LaterEvent(readings, n, earlier, a, b);
    }
  }

  lemma OneMoreSeparate(events: seq<Event>, ev: Event)
    requires Separate(events) && forall earlier | earlier in events :: earlier.last + LongestGap < ev.first
    ensures Separate(events + [ev])
  {
    forall i | 0 <= i < |events| ensures events[i].last + LongestGap < ev.first {
      assert events[i] in events;
    }
  }

  lemma LaterEvent(readings: seq<Reading>, n: nat, ev: Event, a: nat, b: nat)
    requires Station(readings) && EventRows(readings, n) != []
    requires IsReported(readings, ev, a, b) && Number(WetStarts(readings), a) < n
    ensures ev.last + LongestGap < Aggregate(readings, Wet(readings), EventRows(readings, n)).first
  {
    var lo, hi := EventIsChain(readings, n);
    if lo <= a {
      SameNumber(WetStarts(readings), lo, a);
      assert false;
    }
    LaterReport(readings, a, b, lo, hi);
  }

  lemma LaterReport(readings: seq<Reading>, a: nat, b: nat, lo: nat, hi: nat)
    requires Station(readings) && a < lo
    requires var slots := WetSlots(readings, Wet(readings));
      Chain(slots, LongestGap, a, b) && Chain(slots, LongestGap, lo, hi)
    ensures Report(readings, a, b).last + LongestGap < Report(readings, lo, hi).first
  {
    WetInOrder(readings);
    ChainsAreApart(WetSlots(readings, Wet(readings)), LongestGap, a, b, lo, hi);
  }

  ghost predicate IsChainReport(readings: seq<Reading>, ev: Event) {
    exists lo, hi :: IsReported(readings, ev, lo, hi)
  }

  /** The events are exactly the maximal chains, each once and in order. */
  lemma EventTableIsExact(readings: seq<Reading>)
    requires Station(readings)
    ensures forall ev :: ev in EventTable(readings) <==> IsChainReport(readings, ev)
    ensures Separate(EventTable(readings))
  {
    EventsAreSeparate(readings, LastEvent(readings));
    forall ev ensures ev in EventTable(readings) <==> IsChainReport(readings, ev) {
      if ev in EventTable(readings) {
        var lo, hi := EventsAreChains(readings, LastEvent(readings), ev);
      }
      if lo, hi :| IsReported(readings, ev, lo, hi) {
        ChainsAreEvents(readings, lo, hi);
      }
    }
  }

  // -------------------------------------------------------------------- completeness

  lemma {:induction false} AtLeastASlotApart(readings: seq<Reading>, p: nat, q: nat)
    requires Station(readings) && p <= q < |readings|
    ensures readings[q].slot - readings[p].slot >= 300 * (q - p)
    decreases q
  {
    if p < q {
      AtLeastASlotApart(readings, p, q - 1);
      assert Slots(readings)[q - 1] < Slots(readings)[q];
    }
  }

  ghost predicate Observed(readings: seq<Reading>, slot: int) {
    exists i | 0 <= i < |readings| :: readings[i].slot == slot
  }

  /** Every slot from one to another. */
  ghost predicate EverySlot(readings: seq<Reading>, first: int, last: int) {
    forall s: nat | s <= (last - first) / 300 :: Observed(readings, first + 300 * s)
  }

  /** With every slot observed there is no room for a jump. */
  lemma {:induction false} NoJump(readings: seq<Reading>, p: nat, q: nat, s: nat)
    requires Station(readings) && p <= q < |readings|
    requires EverySlot(readings, readings[p].slot, readings[q].slot)
    requires s <= (readings[q].slot - readings[p].slot) / 300
    ensures p + s <= q && readings[p + s].slot == readings[p].slot + 300 * s
    decreases s
  {
    if s > 0 {
      NoJump(readings, p, q, s - 1);
      var slots := Slots(readings);
      assert Observed(readings, readings[p].slot + 300 * s);
      var r :| 0 <= r < |readings| && readings[r].slot == readings[p].slot + 300 * s;
      assert slots[r] > slots[p + s - 1] && slots[r] <= slots[q];
      assert p + s <= r <= q;
      AtLeastASlotApart(readings, p, p + s);
    }
  }

  /** The count of row numbers is full exactly when every slot was observed. */
  lemma CompleteIsEverySlot(readings: seq<Reading>, p: nat, q: nat)
    requires Station(readings) && p <= q < |readings|
    ensures Complete(readings[p].slot, readings[q].slot, q - p + 1)
      <==> EverySlot(readings, readings[p].slot, readings[q].slot)
  {
    var first, last := readings[p].slot, readings[q].slot;
    AtLeastASlotApart(readings, p, q);
    var steps := (last - first) / 300;
    assert last == first + 300 * steps;
    if last - first == 300 * (q - p) {
      forall s: nat | s <= steps ensures Observed(readings, first + 300 * s) {
        AtLeastASlotApart(readings, p, p + s);
        AtLeastASlotApart(readings, p + s, q);
      }
    }
    if EverySlot(readings, first, last) {
      NoJump(readings, p, q, steps);
      AtLeastASlotApart(readings, p + steps, q);
    }
  }

  /** An event is complete exactly when the station reported every slot from its first to
      its last. */
  lemma CompleteEvents(readings: seq<Reading>, ev: Event)
    requires Station(readings) && ev in EventTable(readings)
    ensures ev.complete <==> EverySlot(readings, ev.first, ev.last)
  {
    var wet := Wet(readings);
    var lo, hi := EventsAreChains(readings, LastEvent(readings), ev);
    WetInOrder(readings);
    CompleteIsEverySlot(readings, wet[lo], wet[hi]);
  }

  // -------------------------------------------------------------------- conservation

  function TotalDepth(events: seq<Event>): real {
    DepthOfFirst(events, |events|)
  }

  function DepthOfFirst(events: seq<Event>, n: nat): real
    requires n <= |events|
  {
    if n == 0 then 0.0 else DepthOfFirst(events, n - 1) + events[n - 1].depth
  }

  /** What the rows of the events numbered up to `n` add up to. */
  function DepthUpTo(readings: seq<Reading>, n: nat): real {
    Total(WetRain(readings, Wet(readings)), EventRows(readings, n)) + if n == 0 then 0.0 else DepthUpTo(readings, n - 1)
  }

  lemma {:induction false} DepthUpToIsTotal(readings: seq<Reading>, n: nat)
    ensures var wet := Wet(readings);
      DepthUpTo(readings, n) == TotalOfGroups(WetRain(readings, wet), WetStarts(readings), All(|wet|), n, |wet|)
  {
    if n > 0 {
      DepthUpToIsTotal(readings, n - 1);
    }
  }

  lemma {:induction false} DepthsAreGroups(readings: seq<Reading>, n: nat)
    ensures TotalDepth(EventsUpTo(readings, n)) == DepthUpTo(readings, n)
  {
    if n == 0 {
      NoEventZero(readings);
    } else {
      DepthsAreGroups(readings, n - 1);
      DepthOfNext(readings, n);
    }
  }

  lemma DepthOfNext(readings: seq<Reading>, n: nat)
    requires n > 0
    ensures TotalDepth(EventsUpTo(readings, n)) == TotalDepth(EventsUpTo(readings, n - 1)) +
      Total(WetRain(readings, Wet(readings)), EventRows(readings, n))
  {
    var g := EventRows(readings, n);
    if g != [] {
      OneMoreEvent(EventsUpTo(readings, n - 1), Aggregate(readings, Wet(readings), g));
    } else {
      assert EventsUpTo(readings, n) == EventsUpTo(readings, n - 1);
    }
  }

  lemma OneMoreEvent(events: seq<Event>, ev: Event)
    ensures TotalDepth(events + [ev]) == TotalDepth(events) + ev.depth
  {
    SameDepths(events, events + [ev], |events|);
  }

  lemma {:induction false} SameDepths(events: seq<Event>, events': seq<Event>, n: nat)
    requires n <= |events| && n <= |events'| && forall k | 0 <= k < n :: events[k] == events'[k]
    ensures DepthOfFirst(events, n) == DepthOfFirst(events', n)
  {
    if n > 0 {
      SameDepths(events, events', n - 1);
    }
  }

  lemma NoEventZero(readings: seq<Reading>)
    ensures EventRows(readings, 0) == [] && DepthUpTo(readings, 0) == 0.0
  {
    var wet, g := Wet(readings), EventRows(readings, 0);
    GroupHas(WetStarts(readings), All(|wet|), 0, |wet|);
    if g != [] {
      assert g[0] in g;
      NumberIsCounted(WetStarts(readings), g[0]);
      assert false;
    }
  }

  /** All rain falls in some event, and none in two. */
  lemma DepthIsConserved(readings: seq<Reading>)
    ensures TotalDepth(EventTable(readings)) == Total(Rain(readings), Wet(readings))
  {
    var wet := Wet(readings);
    DepthsAreGroups(readings, LastEvent(readings));
    DepthUpToIsTotal(readings, LastEvent(readings));
    GroupsPartition(WetRain(readings, wet), WetStarts(readings), All(|wet|), LastEvent(readings), |wet|);
    WithinAll(|wet|, 0, |wet|);
    TotalOfAll(readings, wet, |wet|);
    assert wet[..|wet|] == wet;
  }

  function Rain(readings: seq<Reading>): seq<real> {
    seq(|readings|, i requires 0 <= i < |readings| => readings[i].rain)
  }

  lemma {:induction false} TotalOfAll(readings: seq<Reading>, wet: seq<nat>, n: nat)
    requires RowsOf(wet, |readings|) && n <= |wet|
    ensures RowsOf(Interval(0, n), |wet|) && RowsOf(wet[..n], |readings|)
    ensures Total(WetRain(readings, wet), Interval(0, n)) == Total(Rain(readings), wet[..n])
  {
    if n > 0 {
      TotalOfAll(readings, wet, n - 1);
      TotalOfMore(WetRain(readings, wet), Interval(0, n - 1), n - 1);
      assert wet[..n] == wet[..n - 1] + [wet[n - 1]];
      TotalOfMore(Rain(readings), wet[..n - 1], wet[n - 1]);
    }
  }
}
