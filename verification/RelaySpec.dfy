/** What each step of the relay does, as a function of the ledger and the connections. */
module RelaySpec {
  import opened Basics
  import opened Text
  import opened RelayFrames
  import opened Ledger
  import opened TaskTable

  /** A bounded stream channel as the relay sees it: what is queued and whether the receiver is alive. */
  datatype Stream = Stream(capacity: nat, queue: seq<RelayFrame>, open: bool)

  datatype SendResult = Sent | Full | Closed
  datatype Connection = Connection(generation: nat, stream: Stream)

  datatype RelayState = RelayState(
    ledger: Ledger,
    registered: set<string>,
    connected: map<string, Connection>,
    generation: nat)

  const Initial: RelayState := RelayState(Empty, {}, map[], 0)

  function TrySend(s: Stream, f: RelayFrame): (Stream, SendResult) {
    if !s.open then (s, Closed)
    else if |s.queue| >= s.capacity then (s, Full)
    else (s.(queue := s.queue + [f]), Sent)
  }

  /** `wrapping_add(1).max(1)` on a 64-bit counter. */
  function NextGeneration(g: nat): nat {
    var n := (g + 1) % TWO_64;
    if n < 1 then 1 else n
  }

  /** A key may be presented again only while the relay still tracks it. */
  ghost predicate Fresh(l: Ledger, k: FrameKey) {
    k in l.entries ==> k in Owned(l) || k in Window(l)
  }

  /** Push an accepted frame to the destination's stream, if it has one. */
  function Deliver(connected: map<string, Connection>, target: string, f: RelayFrame): (map<string, Connection>, FrameDelivery) {
    if target !in connected then (connected, Mailboxed)
    else
      var (stream, sent) := TrySend(connected[target].stream, f);
      match sent
      case Sent => (connected[target := connected[target].(stream := stream)], Delivered)
      case Full => (connected, Mailboxed)
      case Closed => (connected - {target}, Mailboxed)
  }

  ghost function RouteLocked(s: RelayState, target: string, f: RelayFrame, route: Route): (RelayState, FrameDelivery) {
    var k := FrameKey(target, Trim(f.frameId));
    if !ExactlyOnePayload(f) || k.id == "" then (s, RejectedInvalid)
    else if k in Owned(s.ledger) || k in Window(s.ledger) then (s, RejectedDuplicate)
    else if |Owned(s.ledger)| >= MAX_TRACKED_FRAMES then (s, RejectedCapacity)
    else
      var (connected, delivery) := Deliver(s.connected, target, f);
      (s.(ledger := Accept(s.ledger, k, f, route), registered := s.registered + {target}, connected := connected), delivery)
  }

  ghost function RouteWaiting(s: RelayState, route: Route, target: string, f: RelayFrame): (RelayState, FrameDelivery) {
    if !Admissible(route, target, f) then (s, RejectedInvalid) else RouteLocked(s, target, f, route)
  }

  predicate SameIdElsewhere(keys: set<FrameKey>, id: string) {
    exists k :: k in keys && k.id == id
  }

  ghost function CompleteControl(s: RelayState, route: Route, dest: string, id: string, result: string): (RelayState, ControlCompletion) {
    var k := FrameKey(Trim(dest), Trim(id));
    if k.dest == "" || k.id == "" then (s, CompletionUnknownFrame)
    else if k in Waiting(s.ledger, route) then (s.(ledger := Complete(s.ledger, k, result)), CompletionAccepted)
    else if SameIdElsewhere(Waiting(s.ledger, route), k.id) then (s, CompletionWrongDestination)
    else (s, CompletionUnknownFrame)
  }

  ghost function AckFrame(s: RelayState, dest: string, id: string): (RelayState, FrameAcknowledgement) {
    var k := FrameKey(Trim(dest), Trim(id));
    if k.dest == "" || k.id == "" then (s, AckUnknownFrame)
    else if IsPending(s.ledger, k) && Typed(s.ledger.entries[k].route) then (s, AckUnknownFrame)
    else if k in Window(s.ledger) then (s, AckAccepted)
    else if IsPending(s.ledger, k) then (s.(ledger := Acknowledge(s.ledger, k)), AckAccepted)
    else if SameIdElsewhere(Owned(s.ledger), k.id) then (s, AckWrongDestination)
    else (s, AckUnknownFrame)
  }

  ghost function AbandonFrame(s: RelayState, k: FrameKey): RelayState {
    s.(ledger := AbandonAll(s.ledger, {k}))
  }

  ghost function PublishTask(s: RelayState, tk: TaskKey, identity: TaskEnvelope, routed: TaskEnvelope,
                             f: RelayFrame, receipt: Receipt): (RelayState, PublishedTaskDelivery)
  {
    var l := s.ledger;
    var k := FrameKey(tk.dest, receipt.frameId);
    if !IsExactTaskFrame(f, routed) then (s, PublishInvalid)
    else if tk in l.tasks then
      (s, if l.tasks[tk].envelope == identity then Retry(l.tasks[tk].receipt) else Conflict)
    else if k in Owned(l) || k in Window(l) || |Owned(l)| >= MAX_TRACKED_FRAMES || Trim(receipt.frameId) == "" then
      (s, PublishCapacity)
    else
      var (connected, delivery) := Deliver(s.connected, tk.dest, f);
      (s.(ledger := Admit(l, tk, TaskRecord(identity, receipt), f),
          registered := s.registered + {tk.dest}, connected := connected),
       New(receipt, delivery))
  }

  /** How many of the waiting frames a stream can take. */
  function Replayable(stream: Stream, waiting: nat): nat {
    if !stream.open then 0
    else if |stream.queue| >= stream.capacity then 0
    else Min(waiting, stream.capacity - |stream.queue|)
  }

  ghost function Connect(s: RelayState, node: string, stream: Stream): (RelayState, nat, nat) {
    var mailbox := Mailbox(s.ledger, node);
    var n := Replayable(stream, |mailbox|);
    var g := NextGeneration(s.generation);
    var connected :=
      if n == |mailbox| then s.connected[node := Connection(g, stream.(queue := stream.queue + mailbox))]
      else s.connected;
    (s.(registered := s.registered + {node}, connected := connected, generation := g), n, g)
  }

  ghost function DisconnectNode(s: RelayState, node: string): RelayState {
    if node !in s.connected then s
    else s.(connected := s.connected - {node}, ledger := AbandonAll(s.ledger, FleetKeys(s.ledger, node)))
  }

  ghost function DisconnectIfCurrent(s: RelayState, node: string, generation: nat): RelayState {
    if node in s.connected && s.connected[node].generation == generation then DisconnectNode(s, node) else s
  }

  ghost function RegisterNode(s: RelayState, node: string): RelayState {
    s.(registered := s.registered + {node})
  }

  // ---------- The ledger invariant survives every step ----------

  lemma RouteLockedKeeps(s: RelayState, target: string, f: RelayFrame, route: Route)
    requires FramesInv(s.ledger) && Fresh(s.ledger, FrameKey(target, Trim(f.frameId)))
    requires ExactlyOnePayload(f) ==> PayloadFits(f, route)
    requires route.ForTask? ==> route.task.dest == target
    ensures FramesInv(RouteLocked(s, target, f, route).0.ledger)
    ensures LedgerInv(s.ledger) && !route.ForTask? ==> LedgerInv(RouteLocked(s, target, f, route).0.ledger)
  {
    var k := FrameKey(target, Trim(f.frameId));
    var r := RouteLocked(s, target, f, route);
    if r.1.Delivered? || r.1.Mailboxed? {
      AcceptKeeps(s.ledger, k, f, route);
      if LedgerInv(s.ledger) && !route.ForTask? {
        TasksKeep(s.ledger, r.0.ledger);
      }
    }
  }

  /** A route either takes a key the relay was not tracking, or changes nothing. */
  lemma RouteLockedCases(s: RelayState, target: string, f: RelayFrame, route: Route)
    requires Fresh(s.ledger, FrameKey(target, Trim(f.frameId)))
    ensures var (t, delivery) := RouteLocked(s, target, f, route);
            var k := FrameKey(target, Trim(f.frameId));
            if delivery.Delivered? || delivery.Mailboxed?
            then k !in s.ledger.entries && t.ledger == Accept(s.ledger, k, f, route)
            else t == s
  {
  }

  lemma AdmissibleFits(route: Route, target: string, f: RelayFrame)
    requires Admissible(route, target, f)
    ensures PayloadFits(f, route)
  {
  }

  lemma RouteWaitingKeeps(s: RelayState, route: Route, target: string, f: RelayFrame)
    requires LedgerInv(s.ledger) && Fresh(s.ledger, FrameKey(target, Trim(f.frameId)))
    ensures LedgerInv(RouteWaiting(s, route, target, f).0.ledger)
  {
    if Admissible(route, target, f) {
      AdmissibleFits(route, target, f);
      RouteLockedKeeps(s, target, f, route);
    }
  }

  lemma CompleteControlKeeps(s: RelayState, route: Route, dest: string, id: string, result: string)
    requires LedgerInv(s.ledger) && Typed(route)
    ensures LedgerInv(CompleteControl(s, route, dest, id, result).0.ledger)
  {
    var k := FrameKey(Trim(dest), Trim(id));
    var r := CompleteControl(s, route, dest, id, result);
    if r.1 == CompletionAccepted {
      CompleteKeeps(s.ledger, k, result);
      TasksKeep(s.ledger, r.0.ledger);
    }
  }

  lemma AckFrameKeeps(s: RelayState, dest: string, id: string)
    requires LedgerInv(s.ledger)
    ensures LedgerInv(AckFrame(s, dest, id).0.ledger)
  {
    var k := FrameKey(Trim(dest), Trim(id));
    var r := AckFrame(s, dest, id);
    if r.0 != s {
      AcknowledgeKeeps(s.ledger, k);
      TasksKeep(s.ledger, r.0.ledger);
    }
  }

  lemma AbandonAllKeeps(l: Ledger, ks: set<FrameKey>)
    requires LedgerInv(l)
    requires forall k :: k in ks && IsPending(l, k) ==> !l.entries[k].route.ForTask?
    ensures LedgerInv(AbandonAll(l, ks))
  {
    AbandonKeeps(l, ks);
    TasksKeep(l, AbandonAll(l, ks));
  }

  lemma PublishTaskKeeps(s: RelayState, tk: TaskKey, identity: TaskEnvelope, routed: TaskEnvelope, f: RelayFrame, receipt: Receipt)
    requires LedgerInv(s.ledger) && Fresh(s.ledger, FrameKey(tk.dest, receipt.frameId))
    requires f.frameId == receipt.frameId == Trim(receipt.frameId)
    ensures LedgerInv(PublishTask(s, tk, identity, routed, f, receipt).0.ledger)
  {
    if PublishTask(s, tk, identity, routed, f, receipt).1.New? {
      AdmitKeeps(s.ledger, tk, TaskRecord(identity, receipt), f);
    }
  }
}
