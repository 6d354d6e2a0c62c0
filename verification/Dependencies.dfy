/** Monotonic writes and writes-follow-reads: no effect may be visible without its cause. */
module Dependencies {
  import opened Options
  import opened History

  // --------------------------------------------------------------- justified dependencies

  /** A successful write that names a dependency. */
  predicate IsEffect(h: seq<Event>, i: int) {
    0 <= i < |h| && h[i].op.WriteOp? && h[i].ok && h[i].dependsOn.Some?
  }

  /** Operation `p` is what the effect `i` says it depends on. */
  predicate Justifies(prior: Op, h: seq<Event>, p: int, i: int) {
    && IsEffect(h, i) && 0 <= p < i
    && var dep := h[i].dependsOn.value;
       && h[p].op == prior && h[p].ok
       && h[p].client == h[i].client
       && h[p].key == dep.key
       && h[p].version.Some? && h[p].version == dep.minVersion
       && (Present(dep.writeId) ==> dep.writeId == h[p].writeId)
  }

  /** Positions of an effect and of its cause. */
  datatype Candidate = Candidate(effect: nat, cause: nat)

  /** The cause is the last operation that justifies the effect. */
  ghost predicate IsCandidate(prior: Op, h: seq<Event>, c: Candidate) {
    && Justifies(prior, h, c.cause, c.effect)
    && forall p | c.cause < p < c.effect :: !Justifies(prior, h, p, c.effect)
  }

  /** The last of the first `n` operations that justifies effect `i`. */
  function LastCause(prior: Op, h: seq<Event>, i: nat, n: nat): Option<nat> {
    if n == 0 then None
    else if Justifies(prior, h, n - 1, i) then Some(n - 1)
    else LastCause(prior, h, i, n - 1)
  }

  /** The candidates among the first `n` events, in order. */
  function Candidates(prior: Op, h: seq<Event>, n: nat): seq<Candidate> {
    if n == 0 then []
    else
      var cause := LastCause(prior, h, n - 1, n - 1);
      Candidates(prior, h, n - 1) + if cause.Some? then [Candidate(n - 1, cause.value)] else []
  }

  lemma {:induction false} LastCauseIsLast(prior: Op, h: seq<Event>, i: nat, n: nat)
    ensures var r := LastCause(prior, h, i, n);
      && (r.Some? ==> r.value < n && Justifies(prior, h, r.value, i))
      && (forall p | (if r.Some? then r.value < p else 0 <= p) && p < n :: !Justifies(prior, h, p, i))
  {
    if n > 0 {
      LastCauseIsLast(prior, h, i, n - 1);
    }
  }

  ghost predicate Listed(cs: seq<Candidate>, i: int) {
    exists k :: 0 <= k < |cs| && cs[k].effect == i
  }

  /** The candidates come in order, once each, and each with its last cause. */
  ghost predicate Justified(prior: Op, h: seq<Event>, n: nat, cs: seq<Candidate>) {
    && (forall k | 0 <= k < |cs| :: cs[k].effect < n)
    && (forall k | 0 <= k < |cs| :: IsCandidate(prior, h, cs[k]))
    && (forall j, k | 0 <= j < k < |cs| :: cs[j].effect < cs[k].effect)
  }

  lemma {:induction false} CandidatesAreJustified(prior: Op, h: seq<Event>, n: nat)
    requires n <= |h|
    ensures Justified(prior, h, n, Candidates(prior, h, n))
  {
    if n > 0 {
      CandidatesAreJustified(prior, h, n - 1);
      LastCauseIsLast(prior, h, n - 1, n - 1);
    }
  }

  /** Every effect that has some cause becomes a candidate. */
  lemma {:induction false} CandidatesAreComplete(prior: Op, h: seq<Event>, n: nat, p: nat, i: nat)
    requires i < n <= |h| && Justifies(prior, h, p, i)
    ensures Listed(Candidates(prior, h, n), i)
  {
    var shorter, cs := Candidates(prior, h, n - 1), Candidates(prior, h, n);
    if i < n - 1 {
      CandidatesAreComplete(prior, h, n - 1, p, i);
      var k :| 0 <= k < |shorter| && shorter[k].effect == i;
      assert cs[k].effect == i;
    } else {
      LastCauseIsLast(prior, h, i, i);
      assert cs[|shorter|].effect == i;
    }
  }

  method FindDependencies(h: seq<Event>, prior: Op) returns (candidates: seq<Candidate>)
    ensures candidates == Candidates(prior, h, |h|)
  {
    candidates := [];
    for i := 0 to |h|
      invariant candidates == Candidates(prior, h, i)
    {
      var last := None;
      var e := h[i];
      if e.op == WriteOp && e.ok && e.dependsOn.Some? {
        var dep := e.dependsOn.value;
        for p := 0 to i
          invariant last == LastCause(prior, h, i, p)
        {
          var q := h[p];
          if q.op == prior && q.ok && q.client == e.client && q.key == dep.key
            && q.version.Some? && q.version == dep.minVersion
            && (dep.writeId == None || dep.writeId == Some("") || dep.writeId == q.writeId)
          {
            last := Some(p);
          }
        }
      } else {
        NoEffectNoCause(prior, h, i, i);
      }
      if last.Some? {
        candidates := candidates + [Candidate(i, last.value)];
      }
    }
  }

  lemma {:induction false} NoEffectNoCause(prior: Op, h: seq<Event>, i: nat, n: nat)
    requires !IsEffect(h, i)
    ensures LastCause(prior, h, i, n) == None
  {
    if n > 0 {
      NoEffectNoCause(prior, h, i, n - 1);
    }
  }

  // ----------------------------------------------------------------------- local probes

  /** A successful probe whose locality is established. */
  predicate Admissible(e: Event) {
    e.op.ProbeOp? && e.ok && Present(e.node) && e.raw.localObservation && e.raw.controlId
  }

  /** The probe saw this effect, and looked for this cause. */
  predicate Pairs(h: seq<Event>, k: int, c: Candidate) {
    && 0 <= k < |h| && c.effect < |h| && c.cause < |h| && h[c.cause].version.Some?
    && var e, effect, cause := h[k], h[c.effect], h[c.cause];
       && Admissible(e)
       && e.index > effect.index && e.key == effect.key && e.version == effect.version
       && Present(effect.writeId) && e.writeId == effect.writeId
       && e.raw.causeKey == cause.key && e.raw.causeVersion.Some?
  }

  /** ... and found an older version of it. */
  predicate Exposes(h: seq<Event>, k: int, c: Candidate) {
    Pairs(h, k, c) && h[k].raw.causeVersion.value < h[c.cause].version.value
  }

  /** ... and found that very write, or a newer version under its identity. */
  predicate Confirms(h: seq<Event>, k: int, c: Candidate) {
    Pairs(h, k, c) && !Exposes(h, k, c) && h[k].raw.causeWriteId == h[c.cause].writeId
  }

  predicate WellFormed(h: seq<Event>, cs: seq<Candidate>) {
    forall j | 0 <= j < |cs| :: cs[j].effect < |h| && cs[j].cause < |h| && h[cs[j].cause].version.Some?
  }

  ghost predicate Exposed(h: seq<Event>, cs: seq<Candidate>) {
    exists k, j :: 0 <= j < |cs| && Exposes(h, k, cs[j])
  }

  ghost predicate Confirmed(h: seq<Event>, n: nat, c: Candidate) {
    exists k :: k < n && Confirms(h, k, c)
  }

  ghost predicate AllConfirmed(h: seq<Event>, cs: seq<Candidate>) {
    forall j | 0 <= j < |cs| :: Confirmed(h, |h|, cs[j])
  }

  ghost predicate DistinctEffects(h: seq<Event>, cs: seq<Candidate>)
    requires WellFormed(h, cs)
  {
    forall i, j | 0 <= i < j < |cs| :: h[cs[i].effect].index != h[cs[j].effect].index
  }

  /** The verdict by its definition. */
  ghost function ProbeStatus(h: seq<Event>, cs: seq<Candidate>): Status
    requires WellFormed(h, cs)
  {
    if Exposed(h, cs) then Violation
    else if cs != [] && AllConfirmed(h, cs) && DistinctEffects(h, cs) && AllSucceeded(h) then Pass
    else Inconclusive
  }

  /** The first pair, by probe and then by candidate, that exposes a missing cause. */
  ghost predicate FirstExposed(h: seq<Event>, cs: seq<Candidate>, k: int, j: int) {
    && 0 <= j < |cs| && Exposes(h, k, cs[j])
    && (forall k', j' | 0 <= j' < |cs| && k' < k :: !Exposes(h, k', cs[j']))
    && (forall j' | 0 <= j' < j :: !Exposes(h, k, cs[j']))
  }

  ghost predicate HasFirstExposed(h: seq<Event>, cs: seq<Candidate>) {
    exists k, j :: FirstExposed(h, cs, k, j)
  }

  /** The status, and as evidence the first exposed cause, its effect and the probe. */
  ghost function ProbeVerdict(h: seq<Event>, cs: seq<Candidate>): Verdict
    requires WellFormed(h, cs)
  {
    Verdict(ProbeStatus(h, cs),
      if HasFirstExposed(h, cs) then
        var k, j :| FirstExposed(h, cs, k, j);
        [h[cs[j].cause].index, h[cs[j].effect].index, h[k].index]
      else [])
  }

  /** There is only one first pair, so the evidence is determined. */
  lemma FirstExposedIsEvidence(h: seq<Event>, cs: seq<Candidate>, k: int, j: int)
    requires WellFormed(h, cs) && FirstExposed(h, cs, k, j)
    ensures ProbeVerdict(h, cs) == Verdict(Violation, [h[cs[j].cause].index, h[cs[j].effect].index, h[k].index])
  {
  }

  /** Every violation has one. */
  lemma {:induction false} SomeExposedIsFirst(h: seq<Event>, cs: seq<Candidate>, k: int, j: int)
    returns (k': int, j': int)
    requires 0 <= j < |cs| && Exposes(h, k, cs[j])
    ensures FirstExposed(h, cs, k', j')
    decreases k, j
  {
    if m, i :| 0 <= i < |cs| && m < k && Exposes(h, m, cs[i]) {
      k', j' := SomeExposedIsFirst(h, cs, m, i);
    } else if i :| 0 <= i < j && Exposes(h, k, cs[i]) {
      k', j' := SomeExposedIsFirst(h, cs, k, i);
    } else {
      k', j' := k, j;
    }
  }

  /** Indices of the effects confirmed by the first `n` probes, and by probe `n` for the
      first `m` candidates. */
  ghost predicate Covers(h: seq<Event>, cs: seq<Candidate>, n: nat, m: nat, covered: set<int>)
    requires WellFormed(h, cs) && m <= |cs|
  {
    && (forall x | x in covered :: CoveredBy(h, cs, n, m, x))
    && (forall j | 0 <= j < |cs| && (Confirmed(h, n, cs[j]) || (j < m && Confirms(h, n, cs[j]))) ::
          h[cs[j].effect].index in covered)
  }

  ghost predicate CoveredBy(h: seq<Event>, cs: seq<Candidate>, n: nat, m: nat, x: int)
    requires WellFormed(h, cs) && m <= |cs|
  {
    exists j :: 0 <= j < |cs| && h[cs[j].effect].index == x
                && (Confirmed(h, n, cs[j]) || (j < m && Confirms(h, n, cs[j])))
  }

  function EffectIndices(h: seq<Event>, cs: seq<Candidate>): (xs: seq<int>)
    requires WellFormed(h, cs)
    ensures |xs| == |cs| && forall j | 0 <= j < |cs| :: xs[j] == h[cs[j].effect].index
  {
    seq(|cs|, j requires 0 <= j < |cs| && WellFormed(h, cs) => h[cs[j].effect].index)
  }

  function Elements(xs: seq<int>): set<int> {
    set x | x in xs
  }

  ghost predicate Distinct(xs: seq<int>) {
    forall i, j | 0 <= i < j < |xs| :: xs[i] != xs[j]
  }

  lemma {:induction false} DistinctCount(xs: seq<int>)
    ensures |Elements(xs)| <= |xs|
    ensures |Elements(xs)| == |xs| <==> Distinct(xs)
  {
    if xs != [] {
      var fewer, x := xs[..|xs| - 1], xs[|xs| - 1];
      DistinctCount(fewer);
      assert xs == fewer + [x];
      assert Elements(xs) == Elements(fewer) + {x};
      if x in fewer {
        var i :| 0 <= i < |fewer| && fewer[i] == x;
        assert xs[i] == xs[|xs| - 1];
      }
    }
  }

  /** The counting test: as many covered indices as candidates means that every candidate
      is confirmed and that no two share an index; for all histories. */
  lemma CountingIsExact(h: seq<Event>, cs: seq<Candidate>, covered: set<int>)
    requires WellFormed(h, cs) && Covers(h, cs, |h|, 0, covered)
    ensures |covered| == |cs| <==> AllConfirmed(h, cs) && DistinctEffects(h, cs)
  {
    var indices := EffectIndices(h, cs);
    var all := Elements(indices);
    DistinctCount(indices);
    forall x | x in covered
      ensures x in all
    {
      assert CoveredBy(h, cs, |h|, 0, x);
      var j :| 0 <= j < |cs| && h[cs[j].effect].index == x;
      assert indices[j] == x;
    }
    Subset(covered, all);
    if AllConfirmed(h, cs) {
      assert covered == all;
    }
    if covered == all && DistinctEffects(h, cs) {
      forall j | 0 <= j < |cs|
        ensures Confirmed(h, |h|, cs[j])
      {
        assert indices[j] in all;
        assert CoveredBy(h, cs, |h|, 0, indices[j]);
      }
    }
  }

  lemma Subset<T>(xs: set<T>, ys: set<T>)
    requires xs <= ys
    ensures |xs| <= |ys|
    ensures |xs| == |ys| ==> xs == ys
  {
    var more := ys - xs;
    assert ys == xs + more && xs !! more;
  }

  method CheckProbes(h: seq<Event>, candidates: seq<Candidate>) returns (v: Verdict)
    requires WellFormed(h, candidates)
    ensures v == ProbeVerdict(h, candidates)
  {
    var covered: set<int> := {};
    for k := 0 to |h|
      invariant Covers(h, candidates, k, 0, covered)
      invariant forall k', j | 0 <= j < |candidates| && k' < k :: !Exposes(h, k', candidates[j])
    {
      var e := h[k];
      if e.op == ProbeOp && e.ok && e.node != None && e.node != Some("")
        && e.raw.localObservation && e.raw.controlId
      {
        for j := 0 to |candidates|
          invariant Covers(h, candidates, k, j, covered)
          invariant forall j' | 0 <= j' < j :: !Exposes(h, k, candidates[j'])
        {
          var c := candidates[j];
          var effect, cause := h[c.effect], h[c.cause];
          if e.index > effect.index && e.key == effect.key && e.version == effect.version
            && effect.writeId != None && effect.writeId != Some("") && e.writeId == effect.writeId
            && e.raw.causeKey == cause.key && e.raw.causeVersion.Some?
          {
            if e.raw.causeVersion.value < cause.version.value {
              FirstExposedIsEvidence(h, candidates, k, j);
              return Verdict(Violation, [cause.index, effect.index, e.index]);
            }
            if e.raw.causeWriteId == cause.writeId {
              covered := covered + {effect.index};
            }
          }
        }
      }
    }
    assert !Exposed(h, candidates);
    CountingIsExact(h, candidates, covered);
    v := Finish(candidates != [] && |covered| == |candidates|, h);
  }

  // ------------------------------------------------------------------ verdict stability

  predicate Positioned(h: seq<Event>) {
    forall i | 0 <= i < |h| :: h[i].index == i
  }

  lemma {:induction false} LastCauseExtends(prior: Op, h: seq<Event>, more: seq<Event>, i: nat, n: nat)
    requires n <= i < |h|
    ensures LastCause(prior, h + more, i, n) == LastCause(prior, h, i, n)
  {
    if n > 0 {
      assert (h + more)[i] == h[i] && (h + more)[n - 1] == h[n - 1];
      LastCauseExtends(prior, h, more, i, n - 1);
    }
  }

  /** New events add candidates behind the old ones and change none of them. */
  lemma {:induction false} CandidatesExtend(prior: Op, h: seq<Event>, more: seq<Event>, n: nat)
    requires n <= |h| + |more|
    ensures var cs := Candidates(prior, h, if n <= |h| then n else |h|);
      var cs' := Candidates(prior, h + more, n);
      && |cs| <= |cs'| && cs'[..|cs|] == cs
      && (forall j | |cs| <= j < |cs'| :: |h| <= cs'[j].effect)
      && (n <= |h| ==> cs' == cs)
  {
    if n > 0 {
      CandidatesExtend(prior, h, more, n - 1);
      if n <= |h| {
        LastCauseExtends(prior, h, more, n - 1, n - 1);
      }
    }
  }

  /** Where events carry their positions, no two candidates share an effect index, so the
      counting test says exactly that every candidate is confirmed. */
  lemma PositionedIsDistinct(prior: Op, h: seq<Event>)
    requires Positioned(h)
    ensures var cs := Candidates(prior, h, |h|);
      WellFormed(h, cs) && DistinctEffects(h, cs)
  {
    CandidatesAreJustified(prior, h, |h|);
  }

  /** A write, two writes that depend on it and carry the same index, and a probe for each. */
  function SharedIndex(): seq<Event> {
    var none := Raw(false, false, None, None, None, false, false);
    var found := Raw(true, true, Some("k"), Some(1), Some("c"), false, false);
    var dep := Some(Dependency(Some("k"), Some(1), Some("c")));
    [ Event(0, WriteOp, true, Some("a"), None, Some("k"), Some(1), Some("c"), None, None, None, none),
      Event(1, WriteOp, true, Some("a"), None, Some("x"), Some(1), Some("e"), None, dep, None, none),
      Event(1, WriteOp, true, Some("a"), None, Some("y"), Some(1), Some("f"), None, dep, None, none),
      Event(2, ProbeOp, true, None, Some("n"), Some("x"), Some(1), Some("e"), None, None, None, found),
      Event(3, ProbeOp, true, None, Some("n"), Some("y"), Some(1), Some("f"), None, None, None, found) ]
  }

  lemma SharedCandidates()
    ensures Candidates(WriteOp, SharedIndex(), 5) == [Candidate(1, 0), Candidate(2, 0)]
  {
  }

  /** Every candidate is confirmed, nothing is exposed and everything succeeded, and yet the
      counting test fails. */
  lemma SharedIndexFails()
    ensures var h := SharedIndex();
      var cs := Candidates(WriteOp, h, |h|);
      && WellFormed(h, cs) && cs != [] && AllConfirmed(h, cs) && !Exposed(h, cs) && AllSucceeded(h)
      && ProbeStatus(h, cs) == Inconclusive
  {
    SharedCandidates();
    var h := SharedIndex();
    var cs := Candidates(WriteOp, h, |h|);
    assert Confirms(h, 3, cs[0]) && Confirms(h, 4, cs[1]);
    assert h[cs[0].effect].index == h[cs[1].effect].index;
  }

  /** The list holds exactly the effects with a justified cause, each with its last one. */
  lemma ListIsExact(prior: Op, h: seq<Event>, c: Candidate)
    ensures c in Candidates(prior, h, |h|) <==> IsCandidate(prior, h, c)
  {
    var cs := Candidates(prior, h, |h|);
    CandidatesAreJustified(prior, h, |h|);
    if IsCandidate(prior, h, c) {
      CandidatesAreComplete(prior, h, |h|, c.cause, c.effect);
      var k :| 0 <= k < |cs| && cs[k].effect == c.effect;
      assert IsCandidate(prior, h, cs[k]);
      assert cs[k].cause == c.cause;
    }
  }

  /** Some probe shows an effect without its cause. */
  ghost predicate CauseMissing(prior: Op, h: seq<Event>) {
    exists k, c :: IsCandidate(prior, h, c) && Exposes(h, k, c)
  }

  lemma ExposedIsMissing(prior: Op, h: seq<Event>)
    ensures Exposed(h, Candidates(prior, h, |h|)) <==> CauseMissing(prior, h)
  {
    var cs := Candidates(prior, h, |h|);
    if k, j :| 0 <= j < |cs| && Exposes(h, k, cs[j]) {
      ListIsExact(prior, h, cs[j]);
    }
    if k, c :| IsCandidate(prior, h, c) && Exposes(h, k, c) {
      ListIsExact(prior, h, c);
      var j :| 0 <= j < |cs| && cs[j] == c;
      assert Exposes(h, k, cs[j]);
    }
  }

  lemma AllConfirmedIsEvery(prior: Op, h: seq<Event>)
    ensures var cs := Candidates(prior, h, |h|);
      && (cs != [] <==> exists c :: IsCandidate(prior, h, c))
      && (AllConfirmed(h, cs) <==> forall c :: IsCandidate(prior, h, c) ==> Confirmed(h, |h|, c))
  {
    var cs := Candidates(prior, h, |h|);
    forall c ensures c in cs <==> IsCandidate(prior, h, c) {
      ListIsExact(prior, h, c);
    }
    assert forall j | 0 <= j < |cs| :: cs[j] in cs;
    if cs != [] {
      assert cs[0] in cs;
    }
  }

  /** The probe verdict without the list: a violation exactly when some probe shows an
      effect without its last justified cause; otherwise a pass exactly when there is
      something to check, every such cause was confirmed under its identity, and every
      operation succeeded. */
  lemma ProbeVerdictIsExact(prior: Op, h: seq<Event>)
    requires Positioned(h)
    ensures ProbeVerdictOf(prior, h).status == Violation <==> CauseMissing(prior, h)
    ensures ProbeVerdictOf(prior, h).status == Pass <==>
      && !CauseMissing(prior, h)
      && (exists c :: IsCandidate(prior, h, c))
      && (forall c :: IsCandidate(prior, h, c) ==> Confirmed(h, |h|, c))
      && AllSucceeded(h)
  {
    PositionedIsDistinct(prior, h);
    ExposedIsMissing(prior, h);
    AllConfirmedIsEvery(prior, h);
  }

  lemma CandidatesWellFormed(prior: Op, h: seq<Event>)
    ensures WellFormed(h, Candidates(prior, h, |h|))
  {
    CandidatesAreJustified(prior, h, |h|);
  }

  /** The verdict by probes on a whole history. */
  ghost function ProbeVerdictOf(prior: Op, h: seq<Event>): Verdict {
    CandidatesWellFormed(prior, h);
    ProbeVerdict(h, Candidates(prior, h, |h|))
  }

  /** Appending events changes neither the status nor the evidence of a violation: effects that
      come later cannot be paired with the probe that showed it. */
  lemma AppendingKeepsExposure(prior: Op, h: seq<Event>, more: seq<Event>)
    requires Positioned(h + more) && ProbeVerdictOf(prior, h).status == Violation
    ensures ProbeVerdictOf(prior, h + more) == ProbeVerdictOf(prior, h)
  {
    var cs, cs' := Candidates(prior, h, |h|), Candidates(prior, h + more, |h + more|);
    CandidatesWellFormed(prior, h);
    CandidatesWellFormed(prior, h + more);
    CandidatesExtend(prior, h, more, |h + more|);
    var k, j :| 0 <= j < |cs| && Exposes(h, k, cs[j]);
    k, j := SomeExposedIsFirst(h, cs, k, j);
    EvidenceStays(h, more, cs, cs', k, j);
  }

  lemma EvidenceStays(h: seq<Event>, more: seq<Event>, cs: seq<Candidate>, cs': seq<Candidate>, k: int, j: int)
    requires Positioned(h + more) && WellFormed(h, cs) && WellFormed(h + more, cs') && Extends(h, cs, cs')
    requires FirstExposed(h, cs, k, j)
    ensures ProbeVerdict(h + more, cs') == ProbeVerdict(h, cs)
  {
    FirstExposedStays(h, more, cs, cs', k, j);
    FirstExposedIsEvidence(h, cs, k, j);
    FirstExposedIsEvidence(h + more, cs', k, j);
  }

  /** The candidates `cs'` of the longer history begin with the old ones; the others' effects
      are new. */
  ghost predicate Extends(h: seq<Event>, cs: seq<Candidate>, cs': seq<Candidate>) {
    |cs| <= |cs'| && cs'[..|cs|] == cs && forall i | |cs| <= i < |cs'| :: |h| <= cs'[i].effect
  }

  lemma FirstExposedStays(h: seq<Event>, more: seq<Event>, cs: seq<Candidate>, cs': seq<Candidate>, k: int, j: int)
    requires Positioned(h + more) && WellFormed(h, cs) && WellFormed(h + more, cs')
    requires Extends(h, cs, cs')
    requires FirstExposed(h, cs, k, j)
    ensures j < |cs'| && cs'[j] == cs[j] && FirstExposed(h + more, cs', k, j)
  {
    SameExposure(h, more, cs, cs', k, j);
    forall k', j' | 0 <= j' < |cs'| && k' < k
      ensures !Exposes(h + more, k', cs'[j'])
    {
      if k' >= 0 {
        SameExposure(h, more, cs, cs', k', j');
      }
    }
    forall j' | 0 <= j' < j
      ensures !Exposes(h + more, k, cs'[j'])
    {
      SameExposure(h, more, cs, cs', k, j');
    }
  }

  lemma SameExposure(h: seq<Event>, more: seq<Event>, cs: seq<Candidate>, cs': seq<Candidate>, k: nat, j: nat)
    requires Positioned(h + more) && WellFormed(h, cs) && WellFormed(h + more, cs')
    requires Extends(h, cs, cs')
    requires k < |h| && j < |cs'|
    ensures Exposes(h + more, k, cs'[j]) <==> j < |cs| && Exposes(h, k, cs[j])
  {
  }

  // ------------------------------------------------------- monotonic writes without probes

  predicate Recorded(e: Event) {
    e.op.WriteOp? && e.ok && Present(e.writeId) && e.seqNo.Some?
  }

  /** The recorded writes among the first `n` events by identity; the last of each counts. */
  function Writes(h: seq<Event>, n: nat): map<string, nat>
    requires n <= |h|
  {
    if n == 0 then map[]
    else if Recorded(h[n - 1]) then Writes(h, n - 1)[h[n - 1].writeId.value := n - 1]
    else Writes(h, n - 1)
  }

  lemma {:induction false} WritesAreRecorded(h: seq<Event>, n: nat)
    requires n <= |h|
    ensures forall id | id in Writes(h, n) ::
      Writes(h, n)[id] < n && Recorded(h[Writes(h, n)[id]]) && h[Writes(h, n)[id]].writeId == Some(id)
  {
    if n > 0 {
      WritesAreRecorded(h, n - 1);
    }
  }

  predicate RightWrites(h: seq<Event>, writes: map<string, nat>) {
    forall id | id in writes :: writes[id] < |h| && Recorded(h[writes[id]])
  }

  function OrderOf(e: Event): seq<string> {
    if e.order.Some? then e.order.value else []
  }

  /** A synthetic audit that lists all recorded writes, at least two. */
  predicate EligibleAudit(e: Event, writes: map<string, nat>) {
    e.op.AuditOp? && e.ok && e.raw.synthetic && |writes| >= 2 && forall id | id in writes :: id in OrderOf(e)
  }

  predicate Eligible(h: seq<Event>, writes: map<string, nat>, k: int) {
    0 <= k < |h| && EligibleAudit(h[k], writes)
  }

  /** Two recorded writes of one client are listed against their sequence numbers. */
  predicate Reversed(h: seq<Event>, writes: map<string, nat>, order: seq<string>, a: int, b: int)
    requires RightWrites(h, writes)
  {
    SameWriter(h, writes, order, a, b) && h[writes[order[b]]].seqNo.value < h[writes[order[a]]].seqNo.value
  }

  ghost predicate HasReversal(h: seq<Event>, writes: map<string, nat>, order: seq<string>)
    requires RightWrites(h, writes)
  {
    exists a, b :: Reversed(h, writes, order, a, b)
  }

  /** The reversal that is completed first, with the client's last write before it. */
  ghost predicate FirstReversed(h: seq<Event>, writes: map<string, nat>, order: seq<string>, a: int, b: int)
    requires RightWrites(h, writes)
  {
    && Reversed(h, writes, order, a, b)
    && (forall a', b' | Reversed(h, writes, order, a', b') :: b <= b')
    && (forall m | a < m < b :: !SameWriter(h, writes, order, m, b))
  }

  predicate SameWriter(h: seq<Event>, writes: map<string, nat>, order: seq<string>, a: int, b: int)
    requires RightWrites(h, writes)
  {
    && 0 <= a < b < |order| && order[a] in writes && order[b] in writes
    && h[writes[order[a]]].client == h[writes[order[b]]].client
  }

  ghost predicate SomeReversal(h: seq<Event>, writes: map<string, nat>, n: int)
    requires RightWrites(h, writes) && n <= |h|
  {
    exists k :: k < n && Eligible(h, writes, k) && HasReversal(h, writes, OrderOf(h[k]))
  }

  ghost predicate SomeAudit(h: seq<Event>, writes: map<string, nat>, n: nat) {
    exists k :: k < n && Eligible(h, writes, k)
  }

  ghost function OrderStatus(h: seq<Event>, writes: map<string, nat>): Status
    requires RightWrites(h, writes)
  {
    if SomeReversal(h, writes, |h|) then Violation
    else if SomeAudit(h, writes, |h|) && AllSucceeded(h) then Pass
    else Inconclusive
  }

  /** Each client's last listed write; while nothing was reversed it is its newest. */
  ghost predicate LastListed(h: seq<Event>, writes: map<string, nat>, order: seq<string>, n: nat,
                             last: map<Option<string>, nat>)
    requires RightWrites(h, writes) && n <= |order|
  {
    && (forall c | c in last :: ListedBy(h, writes, order, n, last, c))
    && (forall a | 0 <= a < n && order[a] in writes ::
          var w := h[writes[order[a]]];
          w.client in last && last[w.client] < |h| && h[last[w.client]].seqNo.Some?
          && w.seqNo.value <= h[last[w.client]].seqNo.value)
  }

  method CheckOrder(h: seq<Event>, writes: map<string, nat>, order: seq<string>) returns (bad: Option<(nat, nat)>)
    requires RightWrites(h, writes)
    ensures bad.Some? <==> HasReversal(h, writes, order)
    ensures bad.Some? ==> exists a, b ::
      FirstReversed(h, writes, order, a, b) && bad.value == (writes[order[a]], writes[order[b]])
  {
    var last: map<Option<string>, nat> := map[];
    for n := 0 to |order|
      invariant LastListed(h, writes, order, n, last)
      invariant forall a, b | Reversed(h, writes, order, a, b) :: b >= n
    {
      if order[n] in writes {
        var w := h[writes[order[n]]];
        if w.client in last && w.seqNo.value < h[last[w.client]].seqNo.value {
          assert ListedBy(h, writes, order, n, last, w.client);
          ghost var a :| LastOf(h, writes, order, n, last, w.client, a);
          assert FirstReversed(h, writes, order, a, n);
          return Some((last[w.client], writes[order[n]]));
        }
        ghost var before := last;
        last := last[w.client := writes[order[n]]];
        ListedNext(h, writes, order, n, before);
      } else {
        NothingListed(h, writes, order, n, last);
      }
    }
    bad := None;
  }

  /** The next write becomes its client's last one; it may, as it is not older. */
  lemma ListedNext(h: seq<Event>, writes: map<string, nat>, order: seq<string>, n: nat,
                   last: map<Option<string>, nat>)
    requires RightWrites(h, writes) && n < |order| && LastListed(h, writes, order, n, last)
    requires order[n] in writes
    requires var w := h[writes[order[n]]];
      w.client in last ==> h[last[w.client]].seqNo.value <= w.seqNo.value
    ensures LastListed(h, writes, order, n + 1, last[h[writes[order[n]]].client := writes[order[n]]])
    ensures forall a | Reversed(h, writes, order, a, n) :: false
  {
    var c', last' := h[writes[order[n]]].client, last[h[writes[order[n]]].client := writes[order[n]]];
    forall c | c in last' ensures ListedBy(h, writes, order, n + 1, last', c) {
      if c == c' {
        assert LastOf(h, writes, order, n + 1, last', c, n);
      } else {
        assert ListedBy(h, writes, order, n, last, c);
        var a :| LastOf(h, writes, order, n, last, c, a);
        assert LastOf(h, writes, order, n + 1, last', c, a);
      }
    }
  }

  lemma NothingListed(h: seq<Event>, writes: map<string, nat>, order: seq<string>, n: nat,
                      last: map<Option<string>, nat>)
    requires RightWrites(h, writes) && n < |order| && LastListed(h, writes, order, n, last)
    requires order[n] !in writes
    ensures LastListed(h, writes, order, n + 1, last)
  {
    forall c | c in last ensures ListedBy(h, writes, order, n + 1, last, c) {
      assert ListedBy(h, writes, order, n, last, c);
      var a :| LastOf(h, writes, order, n, last, c, a);
      assert LastOf(h, writes, order, n + 1, last, c, a);
    }
  }

  ghost predicate ListedBy(h: seq<Event>, writes: map<string, nat>, order: seq<string>, n: nat,
                           last: map<Option<string>, nat>, c: Option<string>)
    requires RightWrites(h, writes) && n <= |order| && c in last
  {
    exists a :: LastOf(h, writes, order, n, last, c, a)
  }

  ghost predicate LastOf(h: seq<Event>, writes: map<string, nat>, order: seq<string>, n: nat,
                         last: map<Option<string>, nat>, c: Option<string>, a: int)
    requires RightWrites(h, writes) && n <= |order| && c in last
  {
    && 0 <= a < n && order[a] in writes && writes[order[a]] == last[c] && h[last[c]].client == c
    && forall m | a < m < n && order[m] in writes :: h[writes[order[m]]].client != c
  }

  ghost predicate HasProbe(h: seq<Event>) {
    exists i :: 0 <= i < |h| && h[i].op.ProbeOp?
  }

  method AnyProbe(h: seq<Event>) returns (any: bool)
    ensures any <==> HasProbe(h)
  {
    any := false;
    for i := 0 to |h|
      invariant any <==> exists k :: 0 <= k < i && h[k].op.ProbeOp?
    {
      if h[i].op.ProbeOp? {
        any := true;
      }
    }
  }

  /** The first eligible audit with a reversal, and its first reversal. */
  ghost predicate FirstAudit(h: seq<Event>, writes: map<string, nat>, k: int, a: int, b: int)
    requires RightWrites(h, writes)
  {
    Eligible(h, writes, k) && !SomeReversal(h, writes, k) && FirstReversed(h, writes, OrderOf(h[k]), a, b)
  }

  ghost predicate HasFirstAudit(h: seq<Event>, writes: map<string, nat>)
    requires RightWrites(h, writes)
  {
    exists k, a, b :: FirstAudit(h, writes, k, a, b)
  }

  ghost function AuditEvidence(h: seq<Event>, writes: map<string, nat>, k: int, a: int, b: int): seq<int>
    requires RightWrites(h, writes) && FirstAudit(h, writes, k, a, b)
  {
    [h[writes[OrderOf(h[k])[a]]].index, h[writes[OrderOf(h[k])[b]]].index, h[k].index]
  }

  /** The verdict over the synthetic audits. */
  ghost function OrderVerdictOf(h: seq<Event>): Verdict {
    WritesAreRecorded(h, |h|);
    var writes := Writes(h, |h|);
    Verdict(OrderStatus(h, writes),
      if HasFirstAudit(h, writes) then
        var k, a, b :| FirstAudit(h, writes, k, a, b);
        AuditEvidence(h, writes, k, a, b)
      else [])
  }

  /** There is only one first reversal in the first audit that has any. */
  lemma FirstAuditIsEvidence(h: seq<Event>, writes: map<string, nat>, k: int, a: int, b: int)
    requires writes == Writes(h, |h|) && RightWrites(h, writes) && FirstAudit(h, writes, k, a, b)
    ensures OrderVerdictOf(h) == Verdict(Violation, AuditEvidence(h, writes, k, a, b))
  {
    forall k', a', b' | FirstAudit(h, writes, k', a', b') ensures k' == k && a' == a && b' == b {
      SameFirst(h, writes, k, a, b, k', a', b');
    }
    assert HasReversal(h, writes, OrderOf(h[k]));
    assert SomeReversal(h, writes, |h|);
  }

  lemma SameFirst(h: seq<Event>, writes: map<string, nat>, k: int, a: int, b: int, k': int, a': int, b': int)
    requires RightWrites(h, writes) && FirstAudit(h, writes, k, a, b) && FirstAudit(h, writes, k', a', b')
    ensures k' == k && a' == a && b' == b
  {
  }

  /** Probes decide when there are any, and the synthetic audits otherwise. */
  ghost function MonotonicWrites(h: seq<Event>): Verdict {
    if HasProbe(h) then ProbeVerdictOf(WriteOp, h) else OrderVerdictOf(h)
  }

  method CheckMonotonicWrites(h: seq<Event>) returns (v: Verdict)
    ensures v == MonotonicWrites(h)
  {
    CandidatesWellFormed(WriteOp, h);
    var candidates := FindDependencies(h, WriteOp);
    var probed := AnyProbe(h);
    if probed {
      v := CheckProbes(h, candidates);
      return;
    }
    v := CheckAudits(h);
  }

  method RecordedWrites(h: seq<Event>) returns (writes: map<string, nat>)
    ensures writes == Writes(h, |h|)
  {
    writes := map[];
    for i := 0 to |h|
      invariant writes == Writes(h, i)
    {
      var e := h[i];
      if e.op == WriteOp && e.ok && e.writeId.Some? && e.writeId.value != "" && e.seqNo.Some? {
        writes := writes[e.writeId.value := i];
      }
    }
  }

  /** Whether an audit is to be checked, and the order it lists. */
  method ReadAudit(audit: Event, writes: map<string, nat>) returns (eligible: bool, order: seq<string>)
    ensures order == OrderOf(audit)
    ensures eligible <==> EligibleAudit(audit, writes)
  {
    order := [];
    if audit.order.Some? {
      order := audit.order.value;
    }
    eligible := audit.op == AuditOp && audit.ok && audit.raw.synthetic
      && |writes| >= 2 && forall id | id in writes :: id in order;
  }

  method CheckAudits(h: seq<Event>) returns (v: Verdict)
    ensures v == OrderVerdictOf(h)
  {
    WritesAreRecorded(h, |h|);
    var writes := RecordedWrites(h);
    var complete := false;
    for k := 0 to |h|
      invariant !SomeReversal(h, writes, k)
      invariant complete <==> SomeAudit(h, writes, k)
    {
      var eligible, order := ReadAudit(h[k], writes);
      assert eligible <==> Eligible(h, writes, k);
      if eligible {
        var bad := CheckOrder(h, writes, order);
        if bad.Some? {
          ghost var a, b :| FirstReversed(h, writes, OrderOf(h[k]), a, b)
            && bad.value == (writes[OrderOf(h[k])[a]], writes[OrderOf(h[k])[b]]);
          FirstAuditIsEvidence(h, writes, k, a, b);
          return Verdict(Violation, [h[bad.value.0].index, h[bad.value.1].index, h[k].index]);
        }
        complete := true;
      }
    }
    assert !HasFirstAudit(h, writes);
    v := Finish(complete, h);
  }

  // -------------------------------------------- the same verdict, without the table

  /** Event `i` is a successful write of this identity with a sequence number. */
  predicate RecordedAs(h: seq<Event>, i: int, id: string) {
    0 <= i < |h| && h[i].op == WriteOp && h[i].ok && h[i].writeId == Some(id) && id != "" && h[i].seqNo.Some?
  }

  ghost predicate LastAs(h: seq<Event>, i: int, id: string) {
    RecordedAs(h, i, id) && forall k | i < k :: !RecordedAs(h, k, id)
  }

  /** The table holds every recorded identity with its last write, and nothing else. */
  lemma {:induction false} WritesAreLast(h: seq<Event>, n: nat, id: string)
    requires n <= |h|
    ensures id in Writes(h, n) ==>
      Writes(h, n)[id] < n && RecordedAs(h, Writes(h, n)[id], id)
      && forall k | Writes(h, n)[id] < k < n :: !RecordedAs(h, k, id)
    ensures id !in Writes(h, n) ==> forall k | 0 <= k < n :: !RecordedAs(h, k, id)
  {
    if n > 0 {
      WritesAreLast(h, n - 1, id);
    }
  }

  lemma WriteIsLast(h: seq<Event>, id: string, i: int)
    ensures LastAs(h, i, id) <==> id in Writes(h, |h|) && Writes(h, |h|)[id] == i
    ensures id in Writes(h, |h|) <==> exists k :: RecordedAs(h, k, id)
  {
    WritesAreLast(h, |h|, id);
  }

  ghost predicate TwoIdentities(h: seq<Event>) {
    exists i, k, id, id' :: RecordedAs(h, i, id) && RecordedAs(h, k, id') && id != id'
  }

  /** A synthetic audit that lists every recorded identity, when there are two at least. */
  ghost predicate FullAudit(h: seq<Event>, k: int) {
    && 0 <= k < |h| && h[k].op == AuditOp && h[k].ok && h[k].raw.synthetic && h[k].order.Some?
    && TwoIdentities(h)
    && forall i, id | RecordedAs(h, i, id) :: id in h[k].order.value
  }

  /** The audit lists two identities of one client whose last writes are the other way round. */
  ghost predicate ListsBackward(h: seq<Event>, k: int, i: int, j: int) {
    && 0 <= k < |h| && h[k].order.Some?
    && exists a, b | 0 <= a < b < |h[k].order.value| ::
         && LastAs(h, i, h[k].order.value[a]) && LastAs(h, j, h[k].order.value[b])
         && h[i].client == h[j].client && h[j].seqNo.value < h[i].seqNo.value
  }

  lemma TwoInTable(h: seq<Event>)
    ensures |Writes(h, |h|)| >= 2 <==> TwoIdentities(h)
  {
    var writes := Writes(h, |h|);
    if TwoIdentities(h) {
      var i, k, id, id' :| RecordedAs(h, i, id) && RecordedAs(h, k, id') && id != id';
      WriteIsLast(h, id, i);
      WriteIsLast(h, id', k);
      Subset({id, id'}, writes.Keys);
    }
    if |writes| >= 2 {
      var id :| id in writes;
      assert |writes.Keys - {id}| >= 1;
      var id' :| id' in writes.Keys - {id};
      WriteIsLast(h, id, writes[id]);
      WriteIsLast(h, id', writes[id']);
      assert RecordedAs(h, writes[id], id) && RecordedAs(h, writes[id'], id');
    }
  }

  lemma FullIsEligible(h: seq<Event>, k: int)
    ensures FullAudit(h, k) <==> Eligible(h, Writes(h, |h|), k)
  {
    var writes := Writes(h, |h|);
    TwoInTable(h);
    forall id ensures id in writes <==> exists i :: RecordedAs(h, i, id) {
      WriteIsLast(h, id, 0);
    }
    if Eligible(h, writes, k) {
      var id :| id in writes;
      assert id in OrderOf(h[k]);
    }
  }

  lemma BackwardIsReversed(h: seq<Event>, k: int)
    requires 0 <= k < |h| && RightWrites(h, Writes(h, |h|))
    ensures HasReversal(h, Writes(h, |h|), OrderOf(h[k])) <==> exists i, j :: ListsBackward(h, k, i, j)
  {
    var writes, order := Writes(h, |h|), OrderOf(h[k]);
    if a, b :| Reversed(h, writes, order, a, b) {
      WriteIsLast(h, order[a], writes[order[a]]);
      WriteIsLast(h, order[b], writes[order[b]]);
      assert ListsBackward(h, k, writes[order[a]], writes[order[b]]);
    }
    if i, j :| ListsBackward(h, k, i, j) {
      var a, b :| 0 <= a < b < |order| && LastAs(h, i, order[a]) && LastAs(h, j, order[b])
        && h[i].client == h[j].client && h[j].seqNo.value < h[i].seqNo.value;
      WriteIsLast(h, order[a], i);
      WriteIsLast(h, order[b], j);
      assert Reversed(h, writes, order, a, b);
    }
  }

  ghost predicate SomeBackward(h: seq<Event>) {
    exists k, i, j :: FullAudit(h, k) && ListsBackward(h, k, i, j)
  }

  /** The verdict of a history without probes, over its events alone. */
  lemma OrderVerdictIsExact(h: seq<Event>)
    ensures OrderVerdictOf(h).status == Violation <==> SomeBackward(h)
    ensures OrderVerdictOf(h).status == Pass <==>
      !SomeBackward(h) && (exists k :: FullAudit(h, k)) && AllSucceeded(h)
  {
    var writes := Writes(h, |h|);
    WritesAreRecorded(h, |h|);
    forall k ensures FullAudit(h, k) <==> Eligible(h, writes, k) {
      FullIsEligible(h, k);
    }
    forall k | 0 <= k < |h|
      ensures HasReversal(h, writes, OrderOf(h[k])) <==> exists i, j :: ListsBackward(h, k, i, j)
    {
      BackwardIsReversed(h, k);
    }
  }

  // --------------------------------------------------- writes follow reads without probes

  predicate MockRead(e: Event) {
    e.op.ReadOp? && e.ok && e.raw.mock
  }

  /** Read `i` shows the effect to an observer. */
  predicate Sees(h: seq<Event>, c: Candidate, i: int) {
    && 0 <= i < |h| && c.effect < |h|
    && MockRead(h[i]) && h[i].index > h[c.effect].index
    && h[i].key == h[c.effect].key && h[i].version == h[c.effect].version
  }

  /** A later read `r` of the same observer looks for the cause. */
  predicate LooksFor(h: seq<Event>, c: Candidate, i: int, r: int) {
    && Sees(h, c, i) && i < r < |h| && c.cause < |h| && h[c.cause].version.Some?
    && MockRead(h[r]) && h[r].client == h[i].client && h[r].node == h[i].node
    && h[r].key == h[c.cause].key && h[r].version.Some?
  }

  predicate Misses(h: seq<Event>, c: Candidate, i: int, r: int) {
    LooksFor(h, c, i, r) && h[r].version.value < h[c.cause].version.value
  }

  predicate Finds(h: seq<Event>, c: Candidate, i: int, r: int) {
    LooksFor(h, c, i, r) && !Misses(h, c, i, r)
  }

  ghost predicate SomeMiss(h: seq<Event>, cs: seq<Candidate>, n: int)
    requires n <= |cs|
  {
    exists j, i, r :: 0 <= j < n && Misses(h, cs[j], i, r)
  }

  /** The first miss of one candidate, by the read that shows the effect and then by the read
      that misses the cause. */
  ghost predicate FirstMiss(h: seq<Event>, c: Candidate, i: int, r: int) {
    && Misses(h, c, i, r)
    && (forall i', r' | i' < i :: !Misses(h, c, i', r'))
    && (forall r' | r' < r :: !Misses(h, c, i, r'))
  }

  ghost predicate FirstMissOf(h: seq<Event>, cs: seq<Candidate>, j: int, i: int, r: int) {
    0 <= j < |cs| && !SomeMiss(h, cs, j) && FirstMiss(h, cs[j], i, r)
  }

  ghost predicate HasFirstMiss(h: seq<Event>, cs: seq<Candidate>) {
    exists j, i, r :: FirstMissOf(h, cs, j, i, r)
  }

  ghost function MissEvidence(h: seq<Event>, cs: seq<Candidate>, j: int, i: int, r: int): seq<int>
    requires WellFormed(h, cs) && FirstMissOf(h, cs, j, i, r)
  {
    [h[cs[j].cause].index, h[cs[j].effect].index, h[i].index, h[r].index]
  }

  /** The verdict over the synthetic observers. */
  ghost function ObserverVerdict(h: seq<Event>, cs: seq<Candidate>): Verdict
    requires WellFormed(h, cs)
  {
    Verdict(ObserverStatus(h, cs),
      if HasFirstMiss(h, cs) then
        var j, i, r :| FirstMissOf(h, cs, j, i, r);
        MissEvidence(h, cs, j, i, r)
      else [])
  }

  lemma FirstMissIsEvidence(h: seq<Event>, cs: seq<Candidate>, j: int, i: int, r: int)
    requires WellFormed(h, cs) && FirstMissOf(h, cs, j, i, r)
    ensures ObserverVerdict(h, cs) == Verdict(Violation, MissEvidence(h, cs, j, i, r))
  {
  }

  /** Probes decide when there are any, and the synthetic observers otherwise. */
  ghost function WritesFollowReads(h: seq<Event>): Verdict {
    CandidatesWellFormed(ReadOp, h);
    if HasProbe(h) then ProbeVerdictOf(ReadOp, h) else ObserverVerdict(h, Candidates(ReadOp, h, |h|))
  }

  ghost predicate Found(h: seq<Event>, c: Candidate) {
    exists i, r :: Finds(h, c, i, r)
  }

  ghost function ObserverStatus(h: seq<Event>, cs: seq<Candidate>): Status
    requires WellFormed(h, cs)
  {
    if SomeMiss(h, cs, |cs|) then Violation
    else if cs != [] && (forall j | 0 <= j < |cs| :: Found(h, cs[j])) && DistinctEffects(h, cs) && AllSucceeded(h)
    then Pass
    else Inconclusive
  }

  /** Searches the observations of one candidate: a missing cause, or else whether the cause
      was found. */
  method Observe(h: seq<Event>, c: Candidate) returns (miss: Option<(nat, nat)>, found: bool)
    requires c.effect < |h| && c.cause < |h| && h[c.cause].version.Some?
    ensures miss.Some? ==> FirstMiss(h, c, miss.value.0, miss.value.1)
    ensures miss.None? ==> (forall i, r :: !Misses(h, c, i, r)) && (found <==> Found(h, c))
  {
    found := false;
    for i := 0 to |h|
      invariant forall k, r | k < i :: !Misses(h, c, k, r)
      invariant found <==> exists k, r :: k < i && Finds(h, c, k, r)
    {
      var seen, effect, cause := h[i], h[c.effect], h[c.cause];
      if seen.index > effect.index && seen.op == ReadOp && seen.ok && seen.raw.mock
        && seen.key == effect.key && seen.version == effect.version
      {
        for r := i + 1 to |h|
          invariant forall q | q < r :: !Misses(h, c, i, q)
          invariant found <==> exists k, q :: (k < i || (k == i && q < r)) && Finds(h, c, k, q)
        {
          var read := h[r];
          if read.op == ReadOp && read.ok && read.raw.mock
            && read.client == seen.client && read.node == seen.node
            && read.key == cause.key && read.version.Some?
          {
            if read.version.value < cause.version.value {
              return Some((i, r)), found;
            }
            assert Finds(h, c, i, r);
            found := true;
          }
        }
      }
    }
    miss := None;
  }

  method CheckWritesFollowReads(h: seq<Event>) returns (v: Verdict)
    ensures v == WritesFollowReads(h)
  {
    CandidatesWellFormed(ReadOp, h);
    var candidates := FindDependencies(h, ReadOp);
    var probed := AnyProbe(h);
    if probed {
      v := CheckProbes(h, candidates);
      return;
    }
    var covered: set<int> := {};
    for j := 0 to |candidates|
      invariant !SomeMiss(h, candidates, j)
      invariant forall x | x in covered ::
        exists k :: 0 <= k < j && h[candidates[k].effect].index == x && Found(h, candidates[k])
      invariant forall k | 0 <= k < j && Found(h, candidates[k]) :: h[candidates[k].effect].index in covered
    {
      var c := candidates[j];
      var miss, found := Observe(h, c);
      if miss.Some? {
        FirstMissIsEvidence(h, candidates, j, miss.value.0, miss.value.1);
        return Verdict(Violation, [h[c.cause].index, h[c.effect].index, h[miss.value.0].index, h[miss.value.1].index]);
      }
      if found {
        covered := covered + {h[c.effect].index};
      }
    }
    assert !HasFirstMiss(h, candidates);
    ObserverCounting(h, candidates, covered);
    v := Finish(candidates != [] && |covered| == |candidates|, h);
  }

  lemma ObserverCounting(h: seq<Event>, cs: seq<Candidate>, covered: set<int>)
    requires WellFormed(h, cs)
    requires forall x | x in covered ::
      exists k :: 0 <= k < |cs| && h[cs[k].effect].index == x && Found(h, cs[k])
    requires forall k | 0 <= k < |cs| && Found(h, cs[k]) :: h[cs[k].effect].index in covered
    ensures |covered| == |cs| <==> (forall j | 0 <= j < |cs| :: Found(h, cs[j])) && DistinctEffects(h, cs)
  {
    var indices := EffectIndices(h, cs);
    var all := Elements(indices);
    DistinctCount(indices);
    forall x | x in covered
      ensures x in all
    {
      var k :| 0 <= k < |cs| && h[cs[k].effect].index == x;
      assert indices[k] == x;
    }
    Subset(covered, all);
    if forall j | 0 <= j < |cs| :: Found(h, cs[j]) {
      assert covered == all;
    }
    if covered == all && DistinctEffects(h, cs) {
      forall j | 0 <= j < |cs|
        ensures Found(h, cs[j])
      {
        assert indices[j] in covered;
        var k :| 0 <= k < |cs| && h[cs[k].effect].index == indices[j] && Found(h, cs[k]);
        assert indices[k] == indices[j];
      }
    }
  }

  /** With indices equal to positions, neither verdict on a history with a probe changes when
      events are appended to a violation. */
  lemma AppendingKeepsVerdicts(h: seq<Event>, more: seq<Event>)
    requires Positioned(h + more) && HasProbe(h)
    ensures MonotonicWrites(h).status == Violation ==> MonotonicWrites(h + more) == MonotonicWrites(h)
    ensures WritesFollowReads(h).status == Violation ==> WritesFollowReads(h + more) == WritesFollowReads(h)
  {
    var i :| 0 <= i < |h| && h[i].op.ProbeOp?;
    assert (h + more)[i] == h[i];
    if MonotonicWrites(h).status == Violation {
      AppendingKeepsExposure(WriteOp, h, more);
    }
    if WritesFollowReads(h).status == Violation {
      AppendingKeepsExposure(ReadOp, h, more);
    }
  }
}
