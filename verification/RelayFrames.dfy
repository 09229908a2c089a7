/** Frames, keys and payload rules of the relay (runtime.rs). Payload bodies are opaque strings. */
module RelayFrames {
  import opened Basics
  import opened Text

  datatype FrameKey = FrameKey(dest: string, id: string)
  datatype TaskKey = TaskKey(source: string, dest: string, task: string)
  datatype TaskEnvelope = TaskEnvelope(body: string, metadata: map<string, string>)
  datatype Receipt = Receipt(frameId: string, acceptedAtMs: int)

  datatype RelayFrame = RelayFrame(
    frameId: string,
    source: string,
    destination: string,
    task: Option<TaskEnvelope>,
    result: Option<string>,
    bindV1: Option<string>,
    challengeV1: Option<string>,
    bindV2: Option<string>,
    challengeV2: Option<string>,
    fleet: Option<string>)

  /** Which publishing path a frame took, and so who may settle it. */
  datatype Route = ForTask(task: TaskKey) | ForAck | ForBind | ForChallenge | ForFleet

  datatype FrameDelivery = Delivered | Mailboxed | RejectedDuplicate | RejectedCapacity | RejectedInvalid
  datatype FrameAcknowledgement = AckAccepted | AckWrongDestination | AckUnknownFrame
  datatype ControlCompletion = CompletionAccepted | CompletionWrongDestination | CompletionUnknownFrame
  datatype PublishedTaskDelivery =
    | New(receipt: Receipt, delivery: FrameDelivery)
    | Retry(receipt: Receipt)
    | Conflict
    | PublishCapacity
    | PublishInvalid

  function Count<T>(o: Option<T>): nat {
    if o.Some? then 1 else 0
  }

  predicate ExactlyOnePayload(f: RelayFrame) {
    Count(f.task) + Count(f.result) + Count(f.bindV1) + Count(f.challengeV1)
    + Count(f.bindV2) + Count(f.challengeV2) + Count(f.fleet) == 1
  }

  predicate TargetMatches(target: string, f: RelayFrame) {
    Trim(target) != "" && (Trim(f.destination) == "" || target == f.destination)
  }

  /** The check each waiting route makes before it takes the lock. */
  predicate Admissible(route: Route, target: string, f: RelayFrame) {
    match route
    case ForTask(_) => false
    case ForAck => ExactlyOnePayload(f) && (f.task.Some? || f.result.Some?)
    case ForBind =>
      && TargetMatches(target, f)
      && Count(f.bindV1) + Count(f.bindV2) == 1
      && f.challengeV1.None? && f.challengeV2.None? && f.task.None? && f.result.None?
    case ForChallenge =>
      && TargetMatches(target, f)
      && Count(f.challengeV1) + Count(f.challengeV2) == 1
      && f.bindV1.None? && f.bindV2.None? && f.task.None? && f.result.None?
    case ForFleet =>
      && TargetMatches(target, f)
      && f.fleet.Some?
      && f.task.None? && f.result.None? && f.bindV1.None? && f.challengeV1.None?
      && f.bindV2.None? && f.challengeV2.None?
  }

  predicate IsExactTaskFrame(f: RelayFrame, task: TaskEnvelope) {
    ExactlyOnePayload(f) && f.task == Some(task)
  }

  /** The payload an accepted frame of each route carries. */
  predicate PayloadFits(f: RelayFrame, route: Route) {
    match route
    case ForTask(_) => f.task.Some?
    case ForAck => f.task.Some? || f.result.Some?
    case ForBind => f.bindV1.Some? || f.bindV2.Some?
    case ForChallenge => f.challengeV1.Some? || f.challengeV2.Some?
    case ForFleet => f.fleet.Some?
  }

  predicate Typed(route: Route) {
    route.ForBind? || route.ForChallenge? || route.ForFleet?
  }
}
