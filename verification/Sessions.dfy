/** Read-your-writes and monotonic reads, decided in one pass over the history.

    The definition looks at every pair of a client's operations on one key. The pass only
    remembers one operation for each client and key. */
module Sessions {
  import opened Options
  import opened History

  // ------------------------------------------------------------------ what is to be decided

  /** A successful operation with a client, a key and a version. */
  predicate Usable(e: Event) {
    e.ok && e.client.Some? && e.key.Some? && e.version.Some?
  }

  predicate SameSession(a: Event, b: Event) {
    a.client == b.client && a.key == b.key
  }

  /** An earlier operation `a` and a later read `b` that must not go back behind it. */
  predicate Comparable(prior: Op, a: Event, b: Event) {
    Usable(a) && a.op == prior && Usable(b) && b.op.ReadOp? && SameSession(a, b)
  }

  predicate Backward(prior: Op, a: Event, b: Event) {
    Comparable(prior, a, b) && b.version.value < a.version.value
  }

  predicate PairAt(prior: Op, h: seq<Event>, i: int, j: int) {
    0 <= i < j < |h| && Comparable(prior, h[i], h[j])
  }

  predicate BackwardAt(prior: Op, h: seq<Event>, i: int, j: int) {
    0 <= i < j < |h| && Backward(prior, h[i], h[j])
  }

  /** Among the first `n` events. */
  ghost predicate PairBefore(prior: Op, h: seq<Event>, n: int) {
    exists i, j :: PairAt(prior, h, i, j) && j < n
  }

  ghost predicate BackwardBefore(prior: Op, h: seq<Event>, n: int) {
    exists i, j :: BackwardAt(prior, h, i, j) && j < n
  }

  ghost predicate HasPair(prior: Op, h: seq<Event>) {
    PairBefore(prior, h, |h|)
  }

  ghost predicate HasBackwardPair(prior: Op, h: seq<Event>) {
    BackwardBefore(prior, h, |h|)
  }

  /** The verdict by its definition: `prior` is a write for read-your-writes and a read for
      monotonic reads. */
  ghost function Expected(prior: Op, h: seq<Event>): Status {
    if HasBackwardPair(prior, h) then Violation
    else if HasPair(prior, h) && AllSucceeded(h) then Pass
    else Inconclusive
  }

  /** A successful operation of this kind in this session. */
  predicate Operation(prior: Op, h: seq<Event>, k: int, ck: Session) {
    0 <= k < |h| && Usable(h[k]) && h[k].op == prior && SessionOf(h[k]) == ck
  }

  /** Operation `i` comes before `k` when a violation has to name one of the two: of writes the
      newer version, and of equal versions the earlier write; of reads the later one. */
  predicate Named(prior: Op, h: seq<Event>, i: int, k: int)
    requires 0 <= i < |h| && 0 <= k < |h| && Usable(h[i]) && Usable(h[k])
  {
    if prior.WriteOp? then
      h[k].version.value < h[i].version.value || (h[k].version == h[i].version && i <= k)
    else k <= i
  }

  /** The operation to name among those of a session in the first `n` events. */
  ghost predicate Picked(prior: Op, h: seq<Event>, n: nat, i: int, ck: Session) {
    Operation(prior, h, i, ck) && i < n
    && forall k | 0 <= k < n && Operation(prior, h, k, ck) :: Named(prior, h, i, k)
  }

  /** The evidence: the first read to complete a backward pair, and the operation to name. */
  ghost predicate FirstBackward(prior: Op, h: seq<Event>, i: int, j: int) {
    BackwardAt(prior, h, i, j) && !BackwardBefore(prior, h, j) && Picked(prior, h, j, i, SessionOf(h[j]))
  }

  ghost predicate HasFirst(prior: Op, h: seq<Event>) {
    exists i, j :: FirstBackward(prior, h, i, j)
  }

  ghost function EvidenceOf(prior: Op, h: seq<Event>): seq<int> {
    if HasFirst(prior, h) then
      var i, j :| FirstBackward(prior, h, i, j);
      [h[i].index, h[j].index]
    else []
  }

  ghost function VerdictOf(prior: Op, h: seq<Event>): Verdict {
    Verdict(Expected(prior, h), EvidenceOf(prior, h))
  }

  /** There is only one such pair. */
  lemma FirstIsUnique(prior: Op, h: seq<Event>, i: int, j: int, i': int, j': int)
    requires FirstBackward(prior, h, i, j) && FirstBackward(prior, h, i', j')
    ensures i == i' && j == j'
  {
  }

  lemma EvidenceIsFirst(prior: Op, h: seq<Event>, i: int, j: int)
    requires FirstBackward(prior, h, i, j)
    ensures EvidenceOf(prior, h) == [h[i].index, h[j].index]
  {
  }

  /** Every violation has one. */
  lemma ViolationHasFirst(prior: Op, h: seq<Event>)
    requires (prior.WriteOp? || prior.ReadOp?) && HasBackwardPair(prior, h)
    ensures HasFirst(prior, h)
  {
    var k, j := FirstCompleted(prior, h, |h|);
    var i := Pick(prior, h, j, SessionOf(h[j]), k);
    assert Named(prior, h, i, k);
    if prior.ReadOp? && i != k {
      assert !BackwardAt(prior, h, k, i) by {
        assert BackwardAt(prior, h, k, i) ==> BackwardBefore(prior, h, j);
      }
    }
    assert FirstBackward(prior, h, i, j);
  }

  lemma {:induction false} FirstCompleted(prior: Op, h: seq<Event>, n: nat) returns (i: int, j: int)
    requires BackwardBefore(prior, h, n)
    ensures BackwardAt(prior, h, i, j) && j < n && !BackwardBefore(prior, h, j)
  {
    i, j :| BackwardAt(prior, h, i, j) && j < n;
    if BackwardBefore(prior, h, j) {
      i, j := FirstCompleted(prior, h, j);
    }
  }

  lemma {:induction false} Pick(prior: Op, h: seq<Event>, n: nat, ck: Session, k: int) returns (i: int)
    requires n <= |h| && Operation(prior, h, k, ck) && k < n
    ensures Picked(prior, h, n, i, ck)
  {
    if forall m | 0 <= m < n - 1 :: !Operation(prior, h, m, ck) {
      i := k;
    } else {
      var m :| 0 <= m < n - 1 && Operation(prior, h, m, ck);
      i := Pick(prior, h, n - 1, ck, m);
      if Operation(prior, h, n - 1, ck) && !Named(prior, h, i, n - 1) {
        i := n - 1;
      }
    }
  }

  // --------------------------------------------------------------------- the two checkers

  type Session = (Option<string>, Option<string>)

  function SessionOf(e: Event): Session {
    (e.client, e.key)
  }

  type Latest = map<Session, nat>

  /** After the first `n` events: `latest` holds the operation to name of each session that has
      any, and while no read went backward it is the newest one. */
  ghost predicate Tracks(prior: Op, h: seq<Event>, n: nat, latest: Latest) {
    forall ck :: Tracked(prior, h, n, latest, ck)
  }

  ghost predicate Tracked(prior: Op, h: seq<Event>, n: nat, latest: Latest, ck: Session) {
    if ck in latest then Picked(prior, h, n, latest[ck], ck) && Newest(prior, h, n, latest[ck], ck)
    else forall k | 0 <= k < n :: !Operation(prior, h, k, ck)
  }

  ghost predicate Newest(prior: Op, h: seq<Event>, n: nat, i: int, ck: Session) {
    Operation(prior, h, i, ck)
    && forall k | 0 <= k < n && Operation(prior, h, k, ck) :: h[k].version.value <= h[i].version.value
  }

  /** Event `n` is a read of a remembered session. */
  predicate Checked(h: seq<Event>, n: nat, latest: Latest)
    requires n < |h|
  {
    Usable(h[n]) && h[n].op.ReadOp? && SessionOf(h[n]) in latest
  }

  /** It is behind the operation that is remembered. */
  predicate Behind(prior: Op, h: seq<Event>, n: nat, latest: Latest)
    requires n < |h|
  {
    Checked(h, n, latest) && BackwardAt(prior, h, latest[SessionOf(h[n])], n)
  }

  /** Event `n` ends a pair exactly when its session is remembered. */
  lemma ChecksEveryPair(prior: Op, h: seq<Event>, n: nat, latest: Latest)
    requires n < |h| && Tracks(prior, h, n, latest)
    ensures PairBefore(prior, h, n + 1) <==> PairBefore(prior, h, n) || Checked(h, n, latest)
  {
    assert Tracked(prior, h, n, latest, SessionOf(h[n]));
    if Checked(h, n, latest) {
      assert PairAt(prior, h, latest[SessionOf(h[n])], n);
    }
    if PairBefore(prior, h, n + 1) && !PairBefore(prior, h, n) {
      var i, j :| PairAt(prior, h, i, j) && j < n + 1;
      assert j == n && Operation(prior, h, i, SessionOf(h[n]));
    }
  }

  /** It ends a backward pair exactly when it is behind the one remembered operation. */
  lemma OneIsEnough(prior: Op, h: seq<Event>, n: nat, latest: Latest)
    requires n < |h| && Tracks(prior, h, n, latest)
    ensures BackwardBefore(prior, h, n + 1) <==> BackwardBefore(prior, h, n) || Behind(prior, h, n, latest)
  {
    assert Tracked(prior, h, n, latest, SessionOf(h[n]));
    if BackwardBefore(prior, h, n + 1) && !BackwardBefore(prior, h, n) {
      var i, j :| BackwardAt(prior, h, i, j) && j < n + 1;
      assert j == n && Operation(prior, h, i, SessionOf(h[n]));
    }
  }

  /** What to remember after event `n`, when it is not behind. */
  function Remember(prior: Op, h: seq<Event>, n: nat, latest: Latest): Latest
    requires n < |h| && (SessionOf(h[n]) in latest ==> latest[SessionOf(h[n])] < |h|)
  {
    var ck := SessionOf(h[n]);
    if Operation(prior, h, n, ck)
      && (ck in latest && Operation(prior, h, latest[ck], ck) ==> Named(prior, h, n, latest[ck]))
    then latest[ck := n] else latest
  }

  /** What the loops know after `n` events: no backward pair yet, and whether there was a pair. */
  ghost predicate Known(prior: Op, h: seq<Event>, n: nat, latest: Latest, pairs: nat)
    requires n <= |h|
  {
    && Tracks(prior, h, n, latest)
    && !BackwardBefore(prior, h, n)
    && (pairs > 0 <==> PairBefore(prior, h, n))
  }

  lemma StaysTracked(prior: Op, h: seq<Event>, n: nat, latest: Latest, ck: Session)
    requires prior.WriteOp? || prior.ReadOp?
    requires n < |h| && Tracks(prior, h, n, latest) && !Behind(prior, h, n, latest)
    ensures SessionOf(h[n]) in latest ==> latest[SessionOf(h[n])] < |h|
    ensures Tracked(prior, h, n + 1, Remember(prior, h, n, latest), ck)
  {
    assert Tracked(prior, h, n, latest, ck) && Tracked(prior, h, n, latest, SessionOf(h[n]));
  }

  /** What event `n` asks for: the whole verdict when it is behind what is remembered, and
      otherwise what to remember. */
  lemma Turn(prior: Op, h: seq<Event>, n: nat, latest: Latest, pairs: nat)
    requires (prior.WriteOp? || prior.ReadOp?) && n < |h| && Known(prior, h, n, latest, pairs)
    ensures SessionOf(h[n]) in latest ==>
      latest[SessionOf(h[n])] < n && Operation(prior, h, latest[SessionOf(h[n])], SessionOf(h[n]))
    ensures Behind(prior, h, n, latest) ==>
      VerdictOf(prior, h) == Verdict(Violation, [h[latest[SessionOf(h[n])]].index, h[n].index])
    ensures !Behind(prior, h, n, latest) ==>
      Known(prior, h, n + 1, Remember(prior, h, n, latest), if Checked(h, n, latest) then pairs + 1 else pairs)
  {
    var ck := SessionOf(h[n]);
    assert Tracked(prior, h, n, latest, ck);
    if Behind(prior, h, n, latest) {
      assert BackwardAt(prior, h, latest[ck], n);
      assert FirstBackward(prior, h, latest[ck], n);
      EvidenceIsFirst(prior, h, latest[ck], n);
    } else {
      var next, latest' := n + 1, Remember(prior, h, n, latest);
      forall other: Session ensures Tracked(prior, h, next, latest', other) {
        StaysTracked(prior, h, n, latest, other);
      }
      ChecksEveryPair(prior, h, n, latest);
      OneIsEnough(prior, h, n, latest);
    }
  }

  method CheckReadYourWrites(h: seq<Event>) returns (v: Verdict)
    ensures v == VerdictOf(WriteOp, h)
  {
    var latest: Latest := map[];
    var pairs := 0;
    for n := 0 to |h|
      invariant Known(WriteOp, h, n, latest, pairs)
    {
      Turn(WriteOp, h, n, latest, pairs);
      var e := h[n];
      var ck := SessionOf(e);
      if e.ok && e.client.Some? && e.key.Some? && e.version.Some? {
        if e.op == WriteOp {
          if ck !in latest || e.version.value > h[latest[ck]].version.value {
            latest := latest[ck := n];
          }
        } else if e.op == ReadOp && ck in latest {
          pairs := pairs + 1;
          var w := h[latest[ck]];
          if e.version.value < w.version.value {
            return Verdict(Violation, [w.index, e.index]);
          }
        }
      }
    }
    v := Finish(pairs > 0, h);
  }

  /** Only the last read is remembered; while no read went backward it is the greatest. */
  method CheckMonotonicReads(h: seq<Event>) returns (v: Verdict)
    ensures v == VerdictOf(ReadOp, h)
  {
    var latest: Latest := map[];
    var pairs := 0;
    for n := 0 to |h|
      invariant Known(ReadOp, h, n, latest, pairs)
    {
      Turn(ReadOp, h, n, latest, pairs);
      var e := h[n];
      var ck := SessionOf(e);
      if e.op == ReadOp && e.ok && e.client.Some? && e.key.Some? && e.version.Some? {
        if ck in latest {
          pairs := pairs + 1;
          var prev := h[latest[ck]];
          if e.version.value < prev.version.value {
            return Verdict(Violation, [prev.index, e.index]);
          }
        }
        latest := latest[ck := n];
      }
    }
    v := Finish(pairs > 0, h);
  }

  // ---------------------------------------------------------------------- verdict stability

  /** Appending events changes neither the status nor the evidence of a violation. */
  lemma AppendingKeepsViolations(prior: Op, h: seq<Event>, more: seq<Event>)
    requires (prior.WriteOp? || prior.ReadOp?) && VerdictOf(prior, h).status == Violation
    ensures VerdictOf(prior, h + more) == VerdictOf(prior, h)
  {
    ViolationHasFirst(prior, h);
    var i, j :| FirstBackward(prior, h, i, j);
    var all := h + more;
    forall k, l | BackwardAt(prior, all, k, l) && l < |h|
      ensures BackwardAt(prior, h, k, l)
    {
      assert all[k] == h[k] && all[l] == h[l];
    }
    assert all[i] == h[i] && all[j] == h[j];
    assert BackwardAt(prior, all, i, j);
    forall k | 0 <= k < j && Operation(prior, all, k, SessionOf(h[j]))
      ensures Named(prior, all, i, k)
    {
      assert Operation(prior, h, k, SessionOf(h[j])) && Named(prior, h, i, k);
    }
    assert FirstBackward(prior, all, i, j);
    EvidenceIsFirst(prior, h, i, j);
    EvidenceIsFirst(prior, all, i, j);
  }

  /** The events of one session, in order. */
  function Project(h: seq<Event>, ck: Session): seq<Event> {
    if h == [] then []
    else Project(h[..|h| - 1], ck) + if SessionOf(h[|h| - 1]) == ck then [h[|h| - 1]] else []
  }

  lemma {:induction false} ProjectKeepsPairs(h: seq<Event>, ck: Session, i: nat, j: nat) returns (k: nat, l: nat)
    requires i < j < |h| && SessionOf(h[i]) == ck && SessionOf(h[j]) == ck
    ensures k < l < |Project(h, ck)| && Project(h, ck)[k] == h[i] && Project(h, ck)[l] == h[j]
  {
    var shorter := h[..|h| - 1];
    if j < |h| - 1 {
      k, l := ProjectKeepsPairs(shorter, ck, i, j);
    } else {
      k := ProjectKeeps(shorter, ck, i);
      l := |Project(shorter, ck)|;
    }
  }

  lemma {:induction false} ProjectKeeps(h: seq<Event>, ck: Session, i: nat) returns (k: nat)
    requires i < |h| && SessionOf(h[i]) == ck
    ensures k < |Project(h, ck)| && Project(h, ck)[k] == h[i]
  {
    if i < |h| - 1 {
      k := ProjectKeeps(h[..|h| - 1], ck, i);
    } else {
      k := |Project(h[..|h| - 1], ck)|;
    }
  }

  lemma {:induction false} ProjectComesFrom(h: seq<Event>, ck: Session, k: nat, l: nat) returns (i: nat, j: nat)
    requires k < l < |Project(h, ck)|
    ensures i < j < |h| && Project(h, ck)[k] == h[i] && Project(h, ck)[l] == h[j]
  {
    var shorter := h[..|h| - 1];
    if l < |Project(shorter, ck)| {
      i, j := ProjectComesFrom(shorter, ck, k, l);
    } else {
      i := OneComesFrom(shorter, ck, k);
      j := |h| - 1;
    }
  }

  lemma {:induction false} OneComesFrom(h: seq<Event>, ck: Session, k: nat) returns (i: nat)
    requires k < |Project(h, ck)|
    ensures i < |h| && Project(h, ck)[k] == h[i]
  {
    var shorter := h[..|h| - 1];
    if k < |Project(shorter, ck)| {
      i := OneComesFrom(shorter, ck, k);
    } else {
      i := |h| - 1;
    }
  }

  /** The same events, each session in the same order. */
  ghost predicate Reordered(h: seq<Event>, h': seq<Event>) {
    multiset(h) == multiset(h') && forall ck: Session :: Project(h, ck) == Project(h', ck)
  }

  lemma ReorderingKeepsPairs(prior: Op, h: seq<Event>, h': seq<Event>)
    requires Reordered(h, h')
    ensures HasPair(prior, h) ==> HasPair(prior, h')
    ensures HasBackwardPair(prior, h) ==> HasBackwardPair(prior, h')
  {
    if HasPair(prior, h) {
      var i, j :| PairAt(prior, h, i, j);
      var i', j' := SamePair(h, h', i, j);
      assert PairAt(prior, h', i', j');
    }
    if HasBackwardPair(prior, h) {
      var i, j :| BackwardAt(prior, h, i, j);
      var i', j' := SamePair(h, h', i, j);
      assert BackwardAt(prior, h', i', j');
    }
  }

  lemma SamePair(h: seq<Event>, h': seq<Event>, i: nat, j: nat) returns (i': nat, j': nat)
    requires Reordered(h, h') && i < j < |h| && SameSession(h[i], h[j])
    ensures i' < j' < |h'| && h'[i'] == h[i] && h'[j'] == h[j]
  {
    var ck := SessionOf(h[i]);
    var k, l := ProjectKeepsPairs(h, ck, i, j);
    assert Project(h, ck) == Project(h', ck);
    i', j' := ProjectComesFrom(h', ck, k, l);
  }

  /** Interleaving the sessions differently changes no verdict. */
  lemma ReorderingKeepsStatus(prior: Op, h: seq<Event>, h': seq<Event>)
    requires Reordered(h, h')
    ensures Expected(prior, h) == Expected(prior, h')
  {
    assert Reordered(h', h);
    ReorderingKeepsPairs(prior, h, h');
    ReorderingKeepsPairs(prior, h', h);
    SameSuccess(h, h');
    SameSuccess(h', h);
  }

  lemma SameSuccess(h: seq<Event>, h': seq<Event>)
    requires multiset(h) == multiset(h')
    ensures AllSucceeded(h) ==> AllSucceeded(h')
  {
    forall i | 0 <= i < |h'| && AllSucceeded(h)
      ensures Relevant(h'[i]) ==> h'[i].ok
    {
      assert h'[i] in multiset(h);
    }
  }
}
