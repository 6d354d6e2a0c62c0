/** Histories of client operations, and the verdicts of the finite-history checkers. */
module History {
  import opened Options

  datatype Op = WriteOp | ReadOp | ProbeOp | PartitionOp | StopOp | AuditOp | OtherOp(name: string)

  /** What a write says it depends on; an empty mapping is no dependency. */
  datatype Dependency = Dependency(key: Option<string>, minVersion: Option<int>, writeId: Option<string>)

  /** The fields of the raw record that the checkers look at; the first two as truth values. */
  datatype Raw = Raw(
    localObservation: bool,
    controlId: bool,
    causeKey: Option<string>,
    causeVersion: Option<int>,
    causeWriteId: Option<string>,
    mock: bool,
    synthetic: bool)

  datatype Event = Event(
    index: int,
    op: Op,
    ok: bool,
    client: Option<string>,
    node: Option<string>,
    key: Option<string>,
    version: Option<int>,
    writeId: Option<string>,
    seqNo: Option<int>,
    dependsOn: Option<Dependency>,
    order: Option<seq<string>>,
    raw: Raw)

  datatype Status = Pass | Violation | Inconclusive

  datatype Verdict = Verdict(status: Status, evidence: seq<int>)

  /** Neither missing nor the empty string. */
  predicate Present(s: Option<string>) {
    s.Some? && s.value != ""
  }

  predicate Relevant(e: Event) {
    e.op.WriteOp? || e.op.ReadOp? || e.op.ProbeOp? || e.op.PartitionOp? || e.op.StopOp?
  }

  /** Every operation a verdict rests on succeeded. */
  predicate AllSucceeded(h: seq<Event>) {
    forall i | 0 <= i < |h| :: Relevant(h[i]) ==> h[i].ok
  }

  /** A pass needs complete observations, and no failed operation but audits and others. */
  function Finish(complete: bool, h: seq<Event>): (v: Verdict)
    ensures v.status == Pass <==>
      complete && forall i | 0 <= i < |h| && h[i].op in {WriteOp, ReadOp, ProbeOp, PartitionOp, StopOp} :: h[i].ok
    ensures v.status != Pass ==> v.status == Inconclusive
    ensures v.evidence == []
  {
    Verdict(if complete && AllSucceeded(h) then Pass else Inconclusive, [])
  }
}
