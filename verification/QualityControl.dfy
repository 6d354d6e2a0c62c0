/** Runs of flagged and of dry days that the rain gauge quality control reports.

    Days flagged again and again within the limit form a span. Days without any rain form a
    run, which is suspect when the neighbouring gauges were wet on enough of them. */
module QualityControl {
  import Sorted
  import opened Runs

  /** The limits of the rules. */
  datatype Config = Config(
    repeatMinDays: int,
    repeatMaxGapDays: int,
    stuckWetMedian: real,
    stuckMinNeighbours: int,
    stuckMinWetDays: int)

  // ------------------------------------------------------------ repeatedly flagged days

  datatype Flag = Flag(station: int, day: int)

  datatype Span = Span(station: int, start: int, end: int, flaggedDays: nat)

  /** The flagged days of one station. */
  function DaysOf(flags: seq<Flag>, station: int): seq<int> {
    if flags == [] then []
    else
      var last := flags[|flags| - 1];
      DaysOf(flags[..|flags| - 1], station) + if last.station == station then [last.day] else []
  }

  function Stations(flags: seq<Flag>): seq<int> {
    seq(|flags|, i requires 0 <= i < |flags| => flags[i].station)
  }

  /** A span is a maximal chain of enough days. */
  predicate SpanAt(cfg: Config, sp: Span, station: int, ds: seq<int>, lo: int, hi: int) {
    Chain(ds, cfg.repeatMaxGapDays, lo, hi) && hi - lo + 1 >= cfg.repeatMinDays
    && sp == Span(station, ds[lo], ds[hi], hi - lo + 1)
  }

  /** The spans among the first `n` days. */
  ghost predicate IsSpanOf(cfg: Config, sp: Span, station: int, ds: seq<int>, n: int) {
    exists lo, hi :: hi < n && SpanAt(cfg, sp, station, ds, lo, hi)
  }

  /** By station, and more than the limit apart within one. */
  predicate InOrder(cfg: Config, spans: seq<Span>) {
    forall i, j | 0 <= i < j < |spans| :: Before(cfg, spans[i], spans[j])
  }

  predicate Before(cfg: Config, a: Span, b: Span) {
    a.station < b.station || (a.station == b.station && a.end + cfg.repeatMaxGapDays < b.start)
  }

  /** The chain kept while going over the days: days `lo` to before `i`. */
  predicate Open(cfg: Config, ds: seq<int>, lo: nat, i: nat, chain: seq<int>) {
    lo < i <= |ds| && chain == ds[lo..i]
    && (lo > 0 ==> Apart(ds, cfg.repeatMaxGapDays, lo))
    && forall j | lo < j < i :: !Apart(ds, cfg.repeatMaxGapDays, j)
  }

  /** What has been reported before day `lo`. */
  ghost predicate Reported(cfg: Config, spans: seq<Span>, station: int, ds: seq<int>, lo: nat) {
    (forall sp :: sp in spans <==> IsSpanOf(cfg, sp, station, ds, lo)) && InOrder(cfg, spans)
  }

  method StationSpans(cfg: Config, station: int, ds: seq<int>) returns (spans: seq<Span>)
    requires ds != [] && Sorted.Increasing(ds)
    ensures Reported(cfg, spans, station, ds, |ds|)
  {
    var chain := [ds[0]];
    spans := [];
    ghost var lo := 0;
    for i := 1 to |ds| + 1
      invariant if i <= |ds| then Open(cfg, ds, lo, i, chain) else lo == |ds|
      invariant Reported(cfg, spans, station, ds, lo)
    {
      if i < |ds| && ds[i] - chain[|chain| - 1] <= cfg.repeatMaxGapDays {
        chain := chain + [ds[i]];
        continue;
      }
      Closed(cfg, spans, station, ds, lo, i, chain);
      if |chain| >= cfg.repeatMinDays {
        spans := spans + [Span(station, chain[0], chain[|chain| - 1], |chain|)];
      }
      if i < |ds| {
        chain := [ds[i]];
      }
      lo := i;
    }
  }

  /** Closing the chain of days `lo` to before `i`. */
  lemma Closed(cfg: Config, spans: seq<Span>, station: int, ds: seq<int>, lo: nat, i: nat, chain: seq<int>)
    requires Sorted.Increasing(ds) && Open(cfg, ds, lo, i, chain) && Reported(cfg, spans, station, ds, lo)
    requires i < |ds| ==> ds[i] - chain[|chain| - 1] > cfg.repeatMaxGapDays
    ensures i < |ds| ==> Open(cfg, ds, i, i + 1, [ds[i]])
    ensures var sp := Span(station, chain[0], chain[|chain| - 1], |chain|);
      Reported(cfg, if |chain| >= cfg.repeatMinDays then spans + [sp] else spans, station, ds, i)
  {
    var sp := Span(station, chain[0], chain[|chain| - 1], |chain|);
    assert Chain(ds, cfg.repeatMaxGapDays, lo, i - 1);
    forall other
      ensures IsSpanOf(cfg, other, station, ds, i) <==>
        IsSpanOf(cfg, other, station, ds, lo) || (other == sp && |chain| >= cfg.repeatMinDays)
    {
      OneMoreChain(cfg, other, station, ds, lo, i);
    }
    forall k | 0 <= k < |spans| ensures Before(cfg, spans[k], sp) {
      assert spans[k] in spans;
    }
  }

  lemma OneMoreChain(cfg: Config, sp: Span, station: int, ds: seq<int>, lo: nat, i: nat)
    requires 0 <= lo < i <= |ds| && Chain(ds, cfg.repeatMaxGapDays, lo, i - 1)
    ensures IsSpanOf(cfg, sp, station, ds, i) <==>
      IsSpanOf(cfg, sp, station, ds, lo) || SpanAt(cfg, sp, station, ds, lo, i - 1)
  {
  }

  // ----------------------------------------------------------------- over all stations

  /** The flagged days of a station, each once and in order. */
  function FlaggedDays(flags: seq<Flag>, station: int): seq<int> {
    Sorted.Distinct(DaysOf(flags, station))
  }

  /** A maximal chain of a station's flagged days, long enough. */
  ghost predicate IsRepeat(cfg: Config, flags: seq<Flag>, sp: Span) {
    var ds := FlaggedDays(flags, sp.station);
    IsSpanOf(cfg, sp, sp.station, ds, |ds|)
  }

  lemma {:induction false} DaysAreFlagged(flags: seq<Flag>, station: int)
    ensures station in Stations(flags) <==> DaysOf(flags, station) != []
    ensures forall day :: day in DaysOf(flags, station) <==> Flag(station, day) in flags
  {
    if flags != [] {
      var shorter, last := flags[..|flags| - 1], flags[|flags| - 1];
      assert flags == shorter + [last];
      DaysAreFlagged(shorter, station);
      assert Stations(flags) == Stations(shorter) + [last.station];
    }
  }

  ghost predicate Gathered(flags: seq<Flag>, n: nat, byStation: map<int, seq<int>>)
    requires n <= |flags|
  {
    (forall s :: s in byStation <==> s in Stations(flags[..n]))
    && forall s :: s in byStation ==> byStation[s] == DaysOf(flags[..n], s)
  }

  method Gather(flags: seq<Flag>) returns (byStation: map<int, seq<int>>)
    ensures Gathered(flags, |flags|, byStation)
  {
    byStation := map[];
    for i := 0 to |flags|
      invariant Gathered(flags, i, byStation)
    {
      var d := flags[i];
      assert flags[..i + 1][..i] == flags[..i];
      assert Stations(flags[..i + 1]) == Stations(flags[..i]) + [d.station];
      DaysAreFlagged(flags[..i], d.station);
      if d.station !in byStation {
        byStation := byStation[d.station := []];
      }
      byStation := byStation[d.station := byStation[d.station] + [d.day]];
    }
  }

  /** The spans of the stations before the `k`th. */
  ghost predicate AllReported(cfg: Config, flags: seq<Flag>, ids: seq<int>, k: nat, spans: seq<Span>)
    requires k <= |ids|
  {
    (forall sp :: sp in spans <==> sp.station in ids[..k] && IsRepeat(cfg, flags, sp)) && InOrder(cfg, spans)
  }

  /** Exactly the maximal chains with enough days, in order and more than the limit apart. */
  method RepeatSpans(cfg: Config, flags: seq<Flag>) returns (spans: seq<Span>)
    ensures forall sp :: sp in spans <==> IsRepeat(cfg, flags, sp)
    ensures InOrder(cfg, spans)
  {
    var byStation := Gather(flags);
    assert flags[..|flags|] == flags;
    var ids := Sorted.Distinct(Stations(flags));
    spans := [];
    for k := 0 to |ids|
      invariant AllReported(cfg, flags, ids, k, spans)
    {
      assert ids[k] in ids;
      DaysAreFlagged(flags, ids[k]);
      var ds := Sorted.Distinct(byStation[ids[k]]);
      assert byStation[ids[k]][0] in ds;
      var more := StationSpans(cfg, ids[k], ds);
      NextStation(cfg, flags, ids, k, spans, more);
      spans := spans + more;
    }
    NoOtherStation(cfg, flags, ids, spans);
  }

  lemma NextStation(cfg: Config, flags: seq<Flag>, ids: seq<int>, k: nat, spans: seq<Span>, more: seq<Span>)
    requires k < |ids| && Sorted.Increasing(ids) && AllReported(cfg, flags, ids, k, spans)
    requires var ds := FlaggedDays(flags, ids[k]); Reported(cfg, more, ids[k], ds, |ds|)
    ensures AllReported(cfg, flags, ids, k + 1, spans + more)
  {
    assert ids[..k + 1] == ids[..k] + [ids[k]];
    assert forall a | 0 <= a < |spans| :: spans[a] in spans && spans[a].station < ids[k];
    forall sp ensures sp in more <==> sp.station == ids[k] && IsRepeat(cfg, flags, sp) {
      var ds := FlaggedDays(flags, ids[k]);
      assert sp in more <==> IsSpanOf(cfg, sp, ids[k], ds, |ds|);
    }
    assert forall b | 0 <= b < |more| :: more[b] in more && more[b].station == ids[k];
  }

  lemma NoOtherStation(cfg: Config, flags: seq<Flag>, ids: seq<int>, spans: seq<Span>)
    requires ids == Sorted.Distinct(Stations(flags)) && AllReported(cfg, flags, ids, |ids|, spans)
    ensures forall sp :: sp in spans <==> IsRepeat(cfg, flags, sp)
  {
    assert ids[..|ids|] == ids;
    forall sp | IsRepeat(cfg, flags, sp) ensures sp.station in ids {
      var ds := FlaggedDays(flags, sp.station);
      var lo, hi :| hi < |ds| && SpanAt(cfg, sp, sp.station, ds, lo, hi);
      assert ds[lo] in ds;
      DaysAreFlagged(flags, sp.station);
    }
  }

  // --------------------------------------------------------------------- stuck at zero

  /** One day of a station, with the median total of its neighbours when there are any. */
  datatype Day = Day(day: int, total: real, slots: nat, neighbours: nat, median: real)

  datatype ZeroRun = ZeroRun(start: int, end: int, days: nat, slots: nat, neighbourWetDays: nat)

  predicate InDayOrder(daily: seq<Day>) {
    Ascending(DayNumbers(daily))
  }

  function DayNumbers(daily: seq<Day>): seq<int> {
    seq(|daily|, i requires 0 <= i < |daily| => daily[i].day)
  }

  function Rainy(daily: seq<Day>): seq<bool> {
    seq(|daily|, i requires 0 <= i < |daily| => daily[i].total > 0.0)
  }

  function Zero(daily: seq<Day>): seq<bool> {
    seq(|daily|, i requires 0 <= i < |daily| => daily[i].total == 0.0)
  }

  predicate NeighbourWet(cfg: Config, d: Day) {
    d.neighbours >= cfg.stuckMinNeighbours && d.median >= cfg.stuckWetMedian
  }

  function SlotsOf(daily: seq<Day>, g: seq<nat>, n: nat): nat
    requires RowsOf(g, |daily|) && n <= |g|
  {
    if n == 0 then 0 else SlotsOf(daily, g, n - 1) + daily[g[n - 1]].slots
  }

  function WetDaysOf(cfg: Config, daily: seq<Day>, g: seq<nat>, n: nat): nat
    requires RowsOf(g, |daily|) && n <= |g|
  {
    if n == 0 then 0 else WetDaysOf(cfg, daily, g, n - 1) + if NeighbourWet(cfg, daily[g[n - 1]]) then 1 else 0
  }

  function Summary(cfg: Config, daily: seq<Day>, g: seq<nat>): ZeroRun
    requires RowsOf(g, |daily|) && g != []
  {
    ZeroRun(Least(DayNumbers(daily), g), Greatest(DayNumbers(daily), g), |g|,
      SlotsOf(daily, g, |g|), WetDaysOf(cfg, daily, g, |g|))
  }

  /** The zero days of one run number. */
  function RunRows(daily: seq<Day>, number: nat): seq<nat> {
    Group(Rainy(daily), Zero(daily), number, |daily|)
  }

  function RunOf(cfg: Config, daily: seq<Day>, number: nat): seq<ZeroRun> {
    var g := RunRows(daily, number);
    if g != [] && WetDaysOf(cfg, daily, g, |g|) >= cfg.stuckMinWetDays then [Summary(cfg, daily, g)] else []
  }

  function RunsUpTo(cfg: Config, daily: seq<Day>, number: nat): seq<ZeroRun> {
    if number == 0 then RunOf(cfg, daily, 0) else RunsUpTo(cfg, daily, number - 1) + RunOf(cfg, daily, number)
  }

  function StuckZeroRuns(cfg: Config, daily: seq<Day>): seq<ZeroRun> {
    RunsUpTo(cfg, daily, RunningCount(Rainy(daily), |daily|))
  }

  // What a stretch of zero days comes to, row by row.

  function ZeroDays(daily: seq<Day>, lo: nat, n: nat): nat
    requires n <= |daily|
  {
    if n <= lo then 0 else ZeroDays(daily, lo, n - 1) + if daily[n - 1].total == 0.0 then 1 else 0
  }

  function ZeroSlots(daily: seq<Day>, lo: nat, n: nat): nat
    requires n <= |daily|
  {
    if n <= lo then 0 else ZeroSlots(daily, lo, n - 1) + if daily[n - 1].total == 0.0 then daily[n - 1].slots else 0
  }

  function SuspectDays(cfg: Config, daily: seq<Day>, lo: nat, n: nat): nat
    requires n <= |daily|
  {
    if n <= lo then 0
    else
      SuspectDays(cfg, daily, lo, n - 1) +
      if daily[n - 1].total == 0.0 && daily[n - 1].neighbours >= cfg.stuckMinNeighbours
        && daily[n - 1].median >= cfg.stuckWetMedian then 1 else 0
  }

  /** Zero days `lo` to `hi` with no rain between, cut off by rain from every other zero day. */
  ghost predicate ZeroStretch(daily: seq<Day>, lo: int, hi: int) {
    && 0 <= lo <= hi < |daily| && daily[lo].total == 0.0 && daily[hi].total == 0.0
    && (forall k | lo <= k <= hi :: !(daily[k].total > 0.0))
    && (forall k | 0 <= k < lo && daily[k].total == 0.0 :: RainAmong(daily, k, lo))
    && (forall k | hi < k < |daily| && daily[k].total == 0.0 :: RainAmong(daily, hi, k))
  }

  ghost predicate RainAmong(daily: seq<Day>, from: int, to: int)
    requires 0 <= from && to < |daily|
  {
    exists k | from < k < to :: daily[k].total > 0.0
  }

  lemma ZeroStretchIsStretch(daily: seq<Day>, lo: int, hi: int)
    ensures ZeroStretch(daily, lo, hi) <==> Stretch(Rainy(daily), Zero(daily), lo, hi)
  {
    var marks, kept := Rainy(daily), Zero(daily);
    forall a, b | 0 <= a <= b < |daily| && daily[b].total == 0.0
      ensures MarkIn(marks, a, b) <==> RainAmong(daily, a, b)
    {
      assert forall k | 0 <= k < |daily| :: marks[k] <==> daily[k].total > 0.0;
    }
    if 0 <= lo <= hi < |daily| {
      assert forall k | 0 <= k < |daily| :: marks[k] <==> daily[k].total > 0.0;
      assert forall k | 0 <= k < |daily| :: kept[k] <==> daily[k].total == 0.0;
    }
  }

  /** Such a stretch with enough days that are wet at the neighbours, and what it comes to. */
  ghost predicate IsStuck(cfg: Config, daily: seq<Day>, r: ZeroRun, lo: int, hi: int) {
    ZeroStretch(daily, lo, hi)
    && r == ZeroRun(daily[lo].day, daily[hi].day,
      ZeroDays(daily, lo, hi + 1), ZeroSlots(daily, lo, hi + 1), SuspectDays(cfg, daily, lo, hi + 1))
    && r.neighbourWetDays >= cfg.stuckMinWetDays
  }

  ghost predicate IsStuckRun(cfg: Config, daily: seq<Day>, r: ZeroRun) {
    exists lo, hi :: IsStuck(cfg, daily, r, lo, hi)
  }

  lemma {:induction false} CountsOfWithin(cfg: Config, daily: seq<Day>, lo: nat, n: nat)
    requires n <= |daily|
    ensures var g := Within(Zero(daily), lo, n);
      |g| == ZeroDays(daily, lo, n) && SlotsOf(daily, g, |g|) == ZeroSlots(daily, lo, n)
      && WetDaysOf(cfg, daily, g, |g|) == SuspectDays(cfg, daily, lo, n)
  {
    if n > lo {
      CountsOfWithin(cfg, daily, lo, n - 1);
      var g := Within(Zero(daily), lo, n - 1);
      SameCounts(cfg, daily, g, g + [n - 1], |g|);
    }
  }

  lemma {:induction false} SameCounts(cfg: Config, daily: seq<Day>, g: seq<nat>, g': seq<nat>, n: nat)
    requires RowsOf(g, |daily|) && RowsOf(g', |daily|) && n <= |g| && n <= |g'|
    requires forall k | 0 <= k < n :: g[k] == g'[k]
    ensures SlotsOf(daily, g, n) == SlotsOf(daily, g', n) && WetDaysOf(cfg, daily, g, n) == WetDaysOf(cfg, daily, g', n)
  {
    if n > 0 {
      SameCounts(cfg, daily, g, g', n - 1);
    }
  }

  lemma SummaryOfStretch(cfg: Config, daily: seq<Day>, lo: nat, hi: nat)
    requires InDayOrder(daily) && Stretch(Rainy(daily), Zero(daily), lo, hi)
    ensures var g := Within(Zero(daily), lo, hi + 1);
      g != [] && WetDaysOf(cfg, daily, g, |g|) == SuspectDays(cfg, daily, lo, hi + 1)
      && Summary(cfg, daily, g) == ZeroRun(daily[lo].day, daily[hi].day,
        ZeroDays(daily, lo, hi + 1), ZeroSlots(daily, lo, hi + 1), SuspectDays(cfg, daily, lo, hi + 1))
  {
    var kept := Zero(daily);
    EndsOfWithin(kept, lo, hi + 1);
    WithinRises(kept, lo, hi + 1);
    EndsOfGroup(DayNumbers(daily), Within(kept, lo, hi + 1));
    CountsOfWithin(cfg, daily, lo, hi + 1);
  }

  lemma {:induction false} RunsAreStuck(cfg: Config, daily: seq<Day>, number: nat, r: ZeroRun)
    returns (lo: nat, hi: nat)
    requires InDayOrder(daily) && r in RunsUpTo(cfg, daily, number)
    ensures IsStuck(cfg, daily, r, lo, hi) && Number(Rainy(daily), hi) <= number
  {
    if r in RunOf(cfg, daily, number) {
      lo, hi := RunIsStuck(cfg, daily, number, r);
    } else {
      lo, hi := RunsAreStuck(cfg, daily, number - 1, r);
    }
  }

  lemma RunIsStuck(cfg: Config, daily: seq<Day>, number: nat, r: ZeroRun) returns (lo: nat, hi: nat)
    requires InDayOrder(daily) && r in RunOf(cfg, daily, number)
    ensures IsStuck(cfg, daily, r, lo, hi)
    ensures Number(Rainy(daily), lo) == Number(Rainy(daily), hi) == number
  {
    lo, hi := GroupIsStretch(Rainy(daily), Zero(daily), number);
    ZeroStretchIsStretch(daily, lo, hi);
    SummaryOfStretch(cfg, daily, lo, hi);
    SameNumber(Rainy(daily), lo, hi);
  }

  /** One run ends before the next begins. */
  predicate Separate(runs: seq<ZeroRun>) {
    forall i, j | 0 <= i < j < |runs| :: runs[i].end < runs[j].start
  }

  lemma {:induction false} RunsAreSeparate(cfg: Config, daily: seq<Day>, number: nat)
    requires InDayOrder(daily)
    ensures Separate(RunsUpTo(cfg, daily, number))
  {
    if number > 0 {
      RunsAreSeparate(cfg, daily, number - 1);
      var before, here := RunsUpTo(cfg, daily, number - 1), RunOf(cfg, daily, number);
      forall i, j | 0 <= i < |before| && 0 <= j < |here| ensures before[i].end < here[j].start {
        LaterRun(cfg, daily, number, before[i], here[j]);
      }
    }
  }

  lemma LaterRun(cfg: Config, daily: seq<Day>, number: nat, a: ZeroRun, b: ZeroRun)
    requires InDayOrder(daily) && number > 0
    requires a in RunsUpTo(cfg, daily, number - 1) && b in RunOf(cfg, daily, number)
    ensures a.end < b.start
  {
    var lo, hi := RunsAreStuck(cfg, daily, number - 1, a);
    var lo', hi' := RunIsStuck(cfg, daily, number, b);
    if lo' <= hi {
      SameNumber(Rainy(daily), lo', hi);
      assert false;
    }
    assert DayNumbers(daily)[hi] < DayNumbers(daily)[lo'];
  }

  lemma {:induction false} RunIsListed(cfg: Config, daily: seq<Day>, k: nat, number: nat, r: ZeroRun)
    requires k <= number && r in RunOf(cfg, daily, k)
    ensures r in RunsUpTo(cfg, daily, number)
    decreases number
  {
    if k < number {
      RunIsListed(cfg, daily, k, number - 1, r);
    }
  }

  /** The reported runs are exactly the stretches of zero days with enough wet neighbours, each
      once and in order. */
  lemma StuckZeroRunsAreExact(cfg: Config, daily: seq<Day>)
    requires InDayOrder(daily)
    ensures forall r :: r in StuckZeroRuns(cfg, daily) <==> IsStuckRun(cfg, daily, r)
    ensures Separate(StuckZeroRuns(cfg, daily))
  {
    var marks := Rainy(daily);
    RunsAreSeparate(cfg, daily, RunningCount(marks, |daily|));
    forall r ensures r in StuckZeroRuns(cfg, daily) <==> IsStuckRun(cfg, daily, r) {
      if r in StuckZeroRuns(cfg, daily) {
        var lo, hi := RunsAreStuck(cfg, daily, RunningCount(marks, |daily|), r);
      }
      if lo, hi :| IsStuck(cfg, daily, r, lo, hi) {
        StuckIsListed(cfg, daily, r, lo, hi);
      }
    }
  }

  lemma StuckIsListed(cfg: Config, daily: seq<Day>, r: ZeroRun, lo: int, hi: int)
    requires InDayOrder(daily) && IsStuck(cfg, daily, r, lo, hi)
    ensures r in StuckZeroRuns(cfg, daily)
  {
    var marks := Rainy(daily);
    ZeroStretchIsStretch(daily, lo, hi);
    StretchIsGroup(marks, Zero(daily), lo, hi);
    SummaryOfStretch(cfg, daily, lo, hi);
    SameNumber(marks, lo, |marks| - 1);
    RunIsListed(cfg, daily, Number(marks, lo), RunningCount(marks, |daily|), r);
  }
}
