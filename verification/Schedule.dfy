/** Tasks dealt to ranks and merged by MAX and SUM reductions. The outcome does not depend
    on the deal or the number of ranks. */
module Schedule {
  import opened Chess

  /** What one task computes. */
  datatype Outcome = Outcome(score: int, nodes: nat, leaves: nat, cutoffs: nat)

  /** Held by a rank's vector for a task it did not run. */
  const UNRUN := Outcome(-INF, 0, 0, 0)

  datatype Field = NodeField | LeafField | CutoffField

  function Get(o: Outcome, f: Field): nat {
    match f
    case NodeField => o.nodes
    case LeafField => o.leaves
    case CutoffField => o.cutoffs
  }

  // -------------------------------------------------------------------- reductions

  function Sum(xs: seq<Outcome>, f: Field): nat {
    if xs == [] then 0 else Sum(xs[..|xs| - 1], f) + Get(xs[|xs| - 1], f)
  }

  /** SUM reduction of the ranks' local sums. */
  function SumAll(world: seq<seq<Outcome>>, f: Field): nat {
    if world == [] then 0 else SumAll(world[..|world| - 1], f) + Sum(world[|world| - 1], f)
  }

  /** MAX reduction of the ranks' scores of one task. */
  function MaxAt(world: seq<seq<Outcome>>, i: nat): int
    requires forall r | 0 <= r < |world| :: i < |world[r]|
  {
    if world == [] then -INF else Max(MaxAt(world[..|world| - 1], i), world[|world| - 1][i].score)
  }

  lemma {:induction false} SumFromFront(xs: seq<Outcome>, f: Field)
    requires xs != []
    ensures Sum(xs, f) == Get(xs[0], f) + Sum(xs[1..], f)
  {
    var last := |xs| - 1;
    if last > 0 {
      SumFromFront(xs[..last], f);
      assert xs[..last][1..] == xs[1..][..last - 1];
    } else {
      assert xs[..last] == [];
    }
  }

  lemma {:induction false} SumOfSameCounts(xs: seq<Outcome>, ys: seq<Outcome>, f: Field)
    requires |xs| == |ys| && forall i | 0 <= i < |xs| :: Get(xs[i], f) == Get(ys[i], f)
    ensures Sum(xs, f) == Sum(ys, f)
  {
    if xs != [] {
      SumOfSameCounts(xs[..|xs| - 1], ys[..|ys| - 1], f);
    }
  }

  /** Which rank each task goes to. */
  predicate IsDeal(deal: seq<nat>, n: nat, ranks: nat) {
    |deal| == n && forall i | 0 <= i < n :: deal[i] < ranks
  }

  /** The program's deal: task i to rank i modulo the number of ranks. */
  function RoundRobin(n: nat, ranks: nat): (deal: seq<nat>)
    requires ranks > 0
    ensures IsDeal(deal, n, ranks)
  {
    seq(n, i requires 0 <= i < n => i % ranks)
  }

  /** The first tasks go to the ranks in turn, and then it starts over. */
  lemma RoundRobinTurns(n: nat, ranks: nat, i: nat)
    requires ranks > 0 && i < n
    ensures i < ranks ==> RoundRobin(n, ranks)[i] == i
    ensures i + ranks < n ==> RoundRobin(n, ranks)[i + ranks] == RoundRobin(n, ranks)[i]
  {
    if i < ranks {
      RemainderIs(i, ranks, 0, i);
    }
    assert (i / ranks) * ranks + i % ranks == i;
    RemainderIs(i + ranks, ranks, i / ranks + 1, i % ranks);
  }

  lemma RemainderIs(a: nat, b: nat, q: nat, r: nat)
    requires r < b && a == q * b + r
    ensures a % b == r
  {
    var q', r' := a / b, a % b;
    assert q' * b + r' == a;
    assert (q - q') * b == r' - r;
    if q < q' {
      OnceOrMore(q' - q, b);
    } else if q' < q {
      OnceOrMore(q - q', b);
    }
  }

  lemma OnceOrMore(d: nat, b: nat)
    requires d > 0
    ensures d * b >= b
  {
  }

  /** The vectors after every rank has run its share of the tasks. */
  function Dealt(tasks: seq<Outcome>, deal: seq<nat>, r: nat): seq<Outcome>
    requires |deal| == |tasks|
  {
    seq(|tasks|, i requires 0 <= i < |tasks| => if deal[i] == r then tasks[i] else UNRUN)
  }

  function DealtAll(tasks: seq<Outcome>, deal: seq<nat>, upTo: nat): seq<seq<Outcome>>
    requires |deal| == |tasks|
  {
    seq(upTo, r requires 0 <= r < upTo => Dealt(tasks, deal, r))
  }

  lemma {:induction false} MaxOfDealt(tasks: seq<Outcome>, deal: seq<nat>, upTo: nat, i: nat)
    requires |deal| == |tasks| && i < |tasks| && tasks[i].score > -INF
    ensures MaxAt(DealtAll(tasks, deal, upTo), i) == if deal[i] < upTo then tasks[i].score else -INF
  {
    if upTo > 0 {
      MaxOfDealt(tasks, deal, upTo - 1, i);
      var world := DealtAll(tasks, deal, upTo);
      assert world[..upTo - 1] == DealtAll(tasks, deal, upTo - 1);
    }
  }

  /** Adding up by rank is adding up by task. */
  lemma {:induction false} SumOfDealt(tasks: seq<Outcome>, deal: seq<nat>, ranks: nat, f: Field)
    requires IsDeal(deal, |tasks|, ranks)
    ensures SumAll(DealtAll(tasks, deal, ranks), f) == Sum(tasks, f)
  {
    if tasks == [] {
      NothingDealt(tasks, deal, ranks, f);
    } else {
      SumOfDealt(tasks[..|tasks| - 1], deal[..|tasks| - 1], ranks, f);
      LastTaskDealt(tasks, deal, ranks, f);
    }
  }

  lemma {:induction false} NothingDealt(tasks: seq<Outcome>, deal: seq<nat>, upTo: nat, f: Field)
    requires tasks == [] && deal == []
    ensures SumAll(DealtAll(tasks, deal, upTo), f) == 0
  {
    if upTo > 0 {
      NothingDealt(tasks, deal, upTo - 1, f);
      assert DealtAll(tasks, deal, upTo)[..upTo - 1] == DealtAll(tasks, deal, upTo - 1);
    }
  }

  /** The last task adds its count to the one rank it is dealt to. */
  lemma {:induction false} LastTaskDealt(tasks: seq<Outcome>, deal: seq<nat>, upTo: nat, f: Field)
    requires |deal| == |tasks| && tasks != []
    ensures SumAll(DealtAll(tasks, deal, upTo), f) ==
      SumAll(DealtAll(tasks[..|tasks| - 1], deal[..|tasks| - 1], upTo), f) +
      if deal[|tasks| - 1] < upTo then Get(tasks[|tasks| - 1], f) else 0
  {
    if upTo > 0 {
      var last := |tasks| - 1;
      var fewer, deal' := tasks[..last], deal[..last];
      LastTaskDealt(tasks, deal, upTo - 1, f);
      assert DealtAll(tasks, deal, upTo)[..upTo - 1] == DealtAll(tasks, deal, upTo - 1);
      assert DealtAll(fewer, deal', upTo)[..upTo - 1] == DealtAll(fewer, deal', upTo - 1);
      assert Dealt(tasks, deal, upTo - 1)[..last] == Dealt(fewer, deal', upTo - 1);
    }
  }

  /** Any deal to any number of ranks merges to what one process computes. */
  lemma RankIndependence(tasks: seq<Outcome>, deal: seq<nat>, ranks: nat, f: Field)
    requires IsDeal(deal, |tasks|, ranks) && forall i | 0 <= i < |tasks| :: tasks[i].score > -INF
    ensures SumAll(DealtAll(tasks, deal, ranks), f) == Sum(tasks, f)
    ensures forall i | 0 <= i < |tasks| :: MaxAt(DealtAll(tasks, deal, ranks), i) == tasks[i].score
  {
    SumOfDealt(tasks, deal, ranks, f);
    forall i | 0 <= i < |tasks|
      ensures MaxAt(DealtAll(tasks, deal, ranks), i) == tasks[i].score
    {
      MaxOfDealt(tasks, deal, ranks, i);
    }
  }

  // ----------------------------------------------------------------- merging the ranks

  /** The ranks' vectors: each outcome with the rank it was dealt to; the other ranks hold
      the filler, or the broadcast score of the seed. */
  ghost predicate Merged(rows: seq<seq<Outcome>>, outs: seq<Outcome>, deal: seq<nat>, ranks: nat, seeded: bool)
    requires IsDeal(deal, |outs|, ranks)
  {
    && |rows| == ranks
    && (forall r | 0 <= r < ranks :: |rows[r]| == |outs|)
    && (forall r, i | 0 <= r < ranks && 0 <= i < |outs| ::
          rows[r][i] == if deal[i] == r then outs[i]
                        else if seeded && i == 0 then UNRUN.(score := outs[0].score) else UNRUN)
  }

  lemma MergedSums(rows: seq<seq<Outcome>>, outs: seq<Outcome>, deal: seq<nat>, ranks: nat, seeded: bool, f: Field)
    requires IsDeal(deal, |outs|, ranks) && Merged(rows, outs, deal, ranks, seeded)
    ensures SumAll(rows, f) == Sum(outs, f)
  {
    var dealt := DealtAll(outs, deal, ranks);
    forall r | 0 <= r < ranks
      ensures |rows[r]| == |dealt[r]| && forall i | 0 <= i < |rows[r]| :: Get(rows[r][i], f) == Get(dealt[r][i], f)
    {
      assert dealt[r] == Dealt(outs, deal, r);
    }
    SameSums(rows, dealt, f);
    SumOfDealt(outs, deal, ranks, f);
  }

  lemma MergedScores(rows: seq<seq<Outcome>>, outs: seq<Outcome>, deal: seq<nat>, ranks: nat, seeded: bool)
    requires IsDeal(deal, |outs|, ranks) && Merged(rows, outs, deal, ranks, seeded) && ranks > 0
    requires forall i | 0 <= i < |outs| :: outs[i].score > -INF
    ensures forall i | 0 <= i < |outs| :: MaxAt(rows, i) == outs[i].score
  {
    forall i | 0 <= i < |outs|
      ensures MaxAt(rows, i) == outs[i].score
    {
      MergedMax(rows, outs, deal, ranks, seeded, ranks, i);
      assert rows[..ranks] == rows;
    }
  }

  lemma {:induction false} MergedMax(rows: seq<seq<Outcome>>, outs: seq<Outcome>, deal: seq<nat>, ranks: nat,
                                     seeded: bool, upTo: nat, i: nat)
    requires IsDeal(deal, |outs|, ranks) && Merged(rows, outs, deal, ranks, seeded)
    requires upTo <= ranks && i < |outs| && outs[i].score > -INF
    ensures MaxAt(rows[..upTo], i) ==
      if deal[i] < upTo || (seeded && i == 0 && upTo > 0) then outs[i].score else -INF
  {
    if upTo > 0 {
      MergedMax(rows, outs, deal, ranks, seeded, upTo - 1, i);
      assert rows[..upTo][..upTo - 1] == rows[..upTo - 1];
    }
  }

  lemma {:induction false} SameSums(rows: seq<seq<Outcome>>, rows': seq<seq<Outcome>>, f: Field)
    requires |rows| == |rows'|
    requires forall r | 0 <= r < |rows| ::
      |rows[r]| == |rows'[r]| && forall i | 0 <= i < |rows[r]| :: Get(rows[r][i], f) == Get(rows'[r][i], f)
    ensures SumAll(rows, f) == SumAll(rows', f)
  {
    if rows != [] {
      var last := |rows| - 1;
      SumOfSameCounts(rows[last], rows'[last], f);
      SameSums(rows[..last], rows'[..last], f);
    }
  }
}
