/** Tasks run by any thread of their rank in any order.

    However the threads are scheduled, every task is run once, every run ends, and the
    outcome is the same. */
module Threads {
  import opened Chess
  import opened Schedule

  /** Where a task is: not begun, held by a thread of its rank, or its slot written. */
  datatype Place = Left | Busy(rank: nat, thread: nat) | Written

  /** An idle thread takes a task of its rank; a thread writes the slot of the task it holds. */
  datatype Step =
    | Take(rank: nat, thread: nat, task: nat)
    | Write(task: nat)

  /** `log` is the order in which slots were written. */
  datatype State = State(place: seq<Place>, world: seq<seq<Outcome>>, log: seq<nat>)

  /** With a seed, rank 0 has already run the first task and every rank holds its score. */
  function Init(tasks: seq<Outcome>, ranks: nat, seeded: bool): State {
    State(seq(|tasks|, i => if IsSeed(seeded, i) then Written else Left),
          seq(ranks, r => seq(|tasks|, i requires 0 <= i < |tasks| =>
            if IsSeed(seeded, i) && r == 0 then tasks[i] else Filler(tasks, seeded, i))),
          [])
  }

  predicate IsSeed(seeded: bool, i: int) {
    seeded && i == 0
  }

  /** What a slot holds for a task that another rank runs, or nobody yet. */
  function Filler(tasks: seq<Outcome>, seeded: bool, i: nat): Outcome
    requires i < |tasks|
  {
    if IsSeed(seeded, i) then UNRUN.(score := tasks[0].score) else UNRUN
  }

  /** A deal; the seed belongs to rank 0. */
  predicate IsSeedDeal(deal: seq<nat>, n: nat, ranks: nat, seeded: bool) {
    IsDeal(deal, n, ranks) && (seeded && n > 0 ==> deal[0] == 0)
  }

  predicate Idle(s: State, rank: nat, thread: nat) {
    forall j | 0 <= j < |s.place| :: s.place[j] != Busy(rank, thread)
  }

  predicate Enabled(s: State, deal: seq<nat>, step: Step)
    requires |deal| == |s.place|
  {
    match step
    case Take(r, th, i) => i < |s.place| && s.place[i] == Left && deal[i] == r && Idle(s, r, th)
    case Write(i) => i < |s.place| && s.place[i].Busy?
  }

  predicate Shaped(s: State, n: nat, ranks: nat) {
    && |s.place| == n
    && |s.world| == ranks
    && (forall r | 0 <= r < ranks :: |s.world[r]| == n)
    && (forall i | 0 <= i < n && s.place[i].Busy? :: s.place[i].rank < ranks)
  }

  function After(tasks: seq<Outcome>, deal: seq<nat>, ranks: nat, s: State, step: Step): State
    requires IsDeal(deal, |tasks|, ranks) && Shaped(s, |tasks|, ranks) && Enabled(s, deal, step)
  {
    match step
    case Take(r, th, i) => s.(place := s.place[i := Busy(r, th)])
    case Write(i) =>
      var r := s.place[i].rank;
      State(s.place[i := Written], s.world[r := s.world[r][i := tasks[i]]], s.log + [i])
  }

  /** A slot holds its own task's outcome once the task is written, and its filler before. */
  ghost predicate SlotsRight(tasks: seq<Outcome>, deal: seq<nat>, ranks: nat, seeded: bool, s: State)
    requires IsDeal(deal, |tasks|, ranks) && Shaped(s, |tasks|, ranks)
  {
    && (forall i | 0 <= i < |tasks| && s.place[i].Busy? :: s.place[i].rank == deal[i])
    && (forall r, i | 0 <= r < ranks && 0 <= i < |tasks| ::
          s.world[r][i] == if s.place[i].Written? && deal[i] == r then tasks[i] else Filler(tasks, seeded, i))
  }

  /** The log lists the written tasks but for the seed, each once. */
  ghost predicate LogRight(place: seq<Place>, log: seq<nat>, seeded: bool) {
    && (forall k | 0 <= k < |log| :: log[k] < |place| && place[log[k]].Written? && !IsSeed(seeded, log[k]))
    && (forall i | 0 <= i < |place| && place[i].Written? && !IsSeed(seeded, i) :: i in log)
    && (forall j, k | 0 <= j < k < |log| :: log[j] != log[k])
    && (seeded && |place| > 0 ==> place[0].Written?)
  }

  ghost predicate Inv(tasks: seq<Outcome>, deal: seq<nat>, ranks: nat, seeded: bool, s: State)
    requires IsDeal(deal, |tasks|, ranks)
  {
    Shaped(s, |tasks|, ranks) && SlotsRight(tasks, deal, ranks, seeded, s) && LogRight(s.place, s.log, seeded)
  }

  lemma StepInv(tasks: seq<Outcome>, deal: seq<nat>, ranks: nat, seeded: bool, s: State, step: Step)
    requires IsDeal(deal, |tasks|, ranks) && Inv(tasks, deal, ranks, seeded, s) && Enabled(s, deal, step)
    ensures Inv(tasks, deal, ranks, seeded, After(tasks, deal, ranks, s, step))
  {
  }

  /** A run: each state follows from the one before by an enabled step. */
  ghost predicate Run(tasks: seq<Outcome>, deal: seq<nat>, ranks: nat, seeded: bool,
                      states: seq<State>, steps: seq<Step>)
    requires IsDeal(deal, |tasks|, ranks)
  {
    && |states| == |steps| + 1
    && states[0] == Init(tasks, ranks, seeded)
    && (forall k | 0 <= k < |steps| ::
          && Shaped(states[k], |tasks|, ranks)
          && Enabled(states[k], deal, steps[k])
          && states[k + 1] == After(tasks, deal, ranks, states[k], steps[k]))
  }

  lemma {:induction false} RunInv(tasks: seq<Outcome>, deal: seq<nat>, ranks: nat, seeded: bool,
                                  states: seq<State>, steps: seq<Step>, k: nat)
    requires IsSeedDeal(deal, |tasks|, ranks, seeded) && Run(tasks, deal, ranks, seeded, states, steps) && k < |states|
    ensures Inv(tasks, deal, ranks, seeded, states[k])
  {
    if k > 0 {
      RunInv(tasks, deal, ranks, seeded, states, steps, k - 1);
      StepInv(tasks, deal, ranks, seeded, states[k - 1], steps[k - 1]);
    }
  }

  ghost predicate Stuck(s: State, deal: seq<nat>)
    requires |deal| == |s.place|
  {
    forall step :: !Enabled(s, deal, step)
  }

  /** However the threads are scheduled: when no thread can step, every task but the seed was
      run exactly once, and the reductions give what one process computes. */
  lemma EveryScheduleAgrees(tasks: seq<Outcome>, deal: seq<nat>, ranks: nat, seeded: bool,
                            states: seq<State>, steps: seq<Step>, f: Field)
    requires IsSeedDeal(deal, |tasks|, ranks, seeded) && ranks > 0
    requires forall i | 0 <= i < |tasks| :: tasks[i].score > -INF
    requires Run(tasks, deal, ranks, seeded, states, steps)
    requires |states[|steps|].place| == |tasks| && Stuck(states[|steps|], deal)
    ensures var s := states[|steps|];
      && Shaped(s, |tasks|, ranks)
      && (forall i: nat :: multiset(s.log)[i] == if i < |tasks| && !IsSeed(seeded, i) then 1 else 0)
      && SumAll(s.world, f) == Sum(tasks, f)
      && (forall i | 0 <= i < |tasks| :: MaxAt(s.world, i) == tasks[i].score)
  {
    var s := states[|steps|];
    RunInv(tasks, deal, ranks, seeded, states, steps, |steps|);
    EveryTaskOnce(tasks, deal, ranks, seeded, s);
    MergedSums(s.world, tasks, deal, ranks, seeded, f);
    MergedScores(s.world, tasks, deal, ranks, seeded);
  }

  lemma EveryTaskOnce(tasks: seq<Outcome>, deal: seq<nat>, ranks: nat, seeded: bool, s: State)
    requires IsDeal(deal, |tasks|, ranks) && Inv(tasks, deal, ranks, seeded, s) && Stuck(s, deal)
    ensures forall i: nat :: multiset(s.log)[i] == if i < |tasks| && !IsSeed(seeded, i) then 1 else 0
    ensures Merged(s.world, tasks, deal, ranks, seeded)
  {
    forall i | 0 <= i < |tasks|
      ensures s.place[i].Written?
    {
      NothingLeft(tasks, deal, ranks, seeded, s, i);
    }
    forall i: nat
      ensures multiset(s.log)[i] == if i < |tasks| && !IsSeed(seeded, i) then 1 else 0
    {
      Occurrences(s.log, i);
    }
  }

  lemma NothingLeft(tasks: seq<Outcome>, deal: seq<nat>, ranks: nat, seeded: bool, s: State, i: nat)
    requires IsDeal(deal, |tasks|, ranks) && Inv(tasks, deal, ranks, seeded, s) && Stuck(s, deal) && i < |tasks|
    ensures s.place[i].Written?
  {
    forall j | 0 <= j < |tasks|
      ensures !s.place[j].Busy?
    {
      assert !Enabled(s, deal, Write(j));
    }
    assert Idle(s, deal[i], 0);
    assert !Enabled(s, deal, Take(deal[i], 0, i));
  }

  lemma {:induction false} Occurrences(log: seq<nat>, i: nat)
    requires forall j, k | 0 <= j < k < |log| :: log[j] != log[k]
    ensures multiset(log)[i] == if i in log then 1 else 0
  {
    if log != [] {
      var rest := log[..|log| - 1];
      assert log == rest + [log[|log| - 1]];
      Occurrences(rest, i);
    }
  }

  /** Steps a run can still make; every step uses one up. */
  function Fuel(place: seq<Place>): nat {
    if place == [] then 0
    else
      var last := place[|place| - 1];
      Fuel(place[..|place| - 1]) + (if last.Left? then 2 else if last.Busy? then 1 else 0)
  }

  lemma StepUsesFuel(tasks: seq<Outcome>, deal: seq<nat>, ranks: nat, s: State, step: Step)
    requires IsDeal(deal, |tasks|, ranks) && Shaped(s, |tasks|, ranks) && Enabled(s, deal, step)
    ensures Fuel(After(tasks, deal, ranks, s, step).place) == Fuel(s.place) - 1
  {
    match step
    case Take(r, th, i) => FuelOfUpdate(s.place, i, Busy(r, th));
    case Write(i) => FuelOfUpdate(s.place, i, Written);
  }

  /** No run makes more than two steps a task. */
  lemma EveryScheduleEnds(tasks: seq<Outcome>, deal: seq<nat>, ranks: nat, seeded: bool,
                          states: seq<State>, steps: seq<Step>)
    requires IsDeal(deal, |tasks|, ranks) && Run(tasks, deal, ranks, seeded, states, steps)
    ensures |steps| <= 2 * |tasks|
  {
    FuelAfter(tasks, deal, ranks, seeded, states, steps, |steps|);
    FuelAtMost(states[0].place);
  }

  lemma {:induction false} FuelAfter(tasks: seq<Outcome>, deal: seq<nat>, ranks: nat, seeded: bool,
                                     states: seq<State>, steps: seq<Step>, k: nat)
    requires IsDeal(deal, |tasks|, ranks) && Run(tasks, deal, ranks, seeded, states, steps) && k < |states|
    ensures Fuel(states[k].place) + k == Fuel(states[0].place)
  {
    if k > 0 {
      FuelAfter(tasks, deal, ranks, seeded, states, steps, k - 1);
      StepUsesFuel(tasks, deal, ranks, states[k - 1], steps[k - 1]);
    }
  }

  lemma {:induction false} FuelAtMost(place: seq<Place>)
    ensures Fuel(place) <= 2 * |place|
  {
    if place != [] {
      FuelAtMost(place[..|place| - 1]);
    }
  }

  lemma {:induction false} FuelOfUpdate(place: seq<Place>, i: nat, p: Place)
    requires i < |place|
    requires (place[i].Left? && p.Busy?) || (place[i].Busy? && p.Written?)
    ensures Fuel(place[i := p]) == Fuel(place) - 1
  {
    var last := |place| - 1;
    if i < last {
      FuelOfUpdate(place[..last], i, p);
      assert place[i := p][..last] == place[..last][i := p];
    } else {
      assert place[i := p][..last] == place[..last];
    }
  }
}
