/**
 The relay with its RPC handlers as processes. A publisher routes a frame, waits, and ends by
 observing its waiter or by being dropped (timeout or cancellation), each through the guard that
 owns its frame. Every event is one critical section, so a run is any list of enabled events.
 */
module RelaySystem {
  import opened Basics
  import opened Text
  import opened RelayFrames
  import opened Ledger
  import opened TaskTable
  import Spec = RelaySpec
  import opened RelaySpec

  const RELAY_STREAM_BUFFER: nat := MAX_TRACKED_FRAMES
  const SOURCE_FEATURES_KEY: string := "keryx.authenticated_source_protocol_features"

  /** A waiting handler: the frame its guard owns, and whether the guard is still armed. */
  datatype Publisher = Publisher(key: FrameKey, route: Route, armed: bool)

  datatype System = System(relay: RelayState, publishers: map<nat, Publisher>, issued: set<string>)

  datatype Event =
    | Registered(node: string)
    | Connected(node: string)
    | Disconnected(node: string)
    | CleanedUp(node: string, generation: nat)
    | Received(node: string)
    | ReceiverClosed(node: string)
    | TaskPublished(source: string, dest: string, taskId: string, task: TaskEnvelope, features: string, frameId: string, nowMs: int)
    | FramePublished(pid: nat, route: Route, dest: string, frame: RelayFrame)
    | Acked(dest: string, id: string)
    | ControlCompleted(route: Route, dest: string, id: string, result: string)
    | Observed(pid: nat)
    | Dropped(pid: nat)

  const Start: System := System(Initial, map[], {})

  // ---------- The publish handlers ----------

  /** The caller's envelope without the metadata the relay projects into it. */
  function CanonicalIdentity(task: TaskEnvelope): TaskEnvelope {
    task.(metadata := task.metadata - {SOURCE_FEATURES_KEY})
  }

  function DeliveredTask(task: TaskEnvelope, features: string): TaskEnvelope {
    task.(metadata := task.metadata[SOURCE_FEATURES_KEY := features])
  }

  function TaskKeyOf(e: Event): TaskKey
    requires e.TaskPublished?
  {
    TaskKey(e.source, e.dest, Trim(e.taskId))
  }

  function TaskFrameOf(e: Event): RelayFrame
    requires e.TaskPublished?
  {
    RelayFrame(e.frameId, e.source, e.dest, Some(DeliveredTask(e.task, e.features)), None, None, None, None, None, None)
  }

  ghost function PublishHandler(s: RelayState, e: Event): (RelayState, PublishedTaskDelivery)
    requires e.TaskPublished?
  {
    PublishTask(s, TaskKeyOf(e), CanonicalIdentity(e.task), DeliveredTask(e.task, e.features), TaskFrameOf(e), Receipt(e.frameId, e.nowMs))
  }

  // ---------- Events ----------

  /** Relay-issued frame ids are new, non-empty and free of surrounding whitespace. */
  ghost predicate NewId(s: System, id: string) {
    id !in s.issued && Trim(id) == id && id != ""
  }

  ghost predicate Enabled(s: System, e: Event) {
    match e
    case TaskPublished(_, _, _, _, _, frameId, _) => NewId(s, frameId)
    case FramePublished(pid, route, _, frame) => pid !in s.publishers && NewId(s, frame.frameId) && !route.ForTask?
    case ControlCompleted(route, _, _, _) => Typed(route)
    case Received(node) => node in s.relay.connected && s.relay.connected[node].stream.queue != []
    case ReceiverClosed(node) => node in s.relay.connected
    case Observed(pid) => pid in s.publishers && s.publishers[pid].armed && !IsPending(s.relay.ledger, s.publishers[pid].key)
    case Dropped(pid) => pid in s.publishers && s.publishers[pid].armed
    case _ => true
  }

  ghost function WithStream(s: RelayState, node: string, stream: Stream): RelayState
    requires node in s.connected
  {
    s.(connected := s.connected[node := s.connected[node].(stream := stream)])
  }

  ghost function RelayStep(s: System, e: Event): RelayState
    requires Enabled(s, e)
  {
    match e
    case Registered(node) => Spec.RegisterNode(s.relay, node)
    case Connected(node) => Connect(s.relay, node, Stream(RELAY_STREAM_BUFFER, [], true)).0
    case Disconnected(node) => Spec.DisconnectNode(s.relay, node)
    case CleanedUp(node, generation) => DisconnectIfCurrent(s.relay, node, generation)
    case Received(node) =>
      var stream := s.relay.connected[node].stream;
      WithStream(s.relay, node, stream.(queue := stream.queue[1..]))
    case ReceiverClosed(node) => WithStream(s.relay, node, s.relay.connected[node].stream.(open := false))
    case TaskPublished(_, _, _, _, _, _, _) => PublishHandler(s.relay, e).0
    case FramePublished(_, route, dest, frame) => RouteWaiting(s.relay, route, dest, frame).0
    case Acked(dest, id) => Spec.AckFrame(s.relay, dest, id).0
    case ControlCompleted(route, dest, id, result) => Spec.CompleteControl(s.relay, route, dest, id, result).0
    case Observed(pid) =>
      var k := s.publishers[pid].key;
      if k in s.relay.ledger.entries && s.relay.ledger.entries[k].fate.Abandoned? then Spec.AbandonFrame(s.relay, k) else s.relay
    case Dropped(pid) => Spec.AbandonFrame(s.relay, s.publishers[pid].key)
  }

  ghost predicate Accepted(delivery: FrameDelivery) {
    delivery.Delivered? || delivery.Mailboxed?
  }

  ghost function PublishersStep(s: System, e: Event): map<nat, Publisher>
    requires Enabled(s, e)
  {
    match e
    case FramePublished(pid, route, dest, frame) =>
      if Accepted(RouteWaiting(s.relay, route, dest, frame).1)
      then s.publishers[pid := Publisher(FrameKey(dest, Trim(frame.frameId)), route, true)]
      else s.publishers
    case Observed(pid) => s.publishers[pid := s.publishers[pid].(armed := false)]
    case Dropped(pid) => s.publishers[pid := s.publishers[pid].(armed := false)]
    case _ => s.publishers
  }

  ghost function Step(s: System, e: Event): System
    requires Enabled(s, e)
  {
    System(RelayStep(s, e), PublishersStep(s, e),
           match e
           case TaskPublished(_, _, _, _, _, frameId, _) => s.issued + {frameId}
           case FramePublished(_, _, _, frame) => s.issued + {frame.frameId}
           case _ => s.issued)
  }

  // ---------- What one event may do to one frame ----------

  /** Why a pending entry may leave `Pending` in one event. */
  ghost predicate SettledBy(s: System, e: Event, k: FrameKey, fate: Fate)
    requires IsPending(s.relay.ledger, k)
  {
    var route := s.relay.ledger.entries[k].route;
    match fate
    case Pending => false
    case Acknowledged =>
      e.Acked? && k == FrameKey(Trim(e.dest), Trim(e.id)) && !Typed(route)
    case Completed(result) =>
      e.ControlCompleted? && k == FrameKey(Trim(e.dest), Trim(e.id)) && e.route == route && e.result == result
    case Abandoned =>
      || (e.Dropped? && e.pid in s.publishers && s.publishers[e.pid].key == k)
      || (route == ForFleet && k.dest in s.relay.connected
          && (e == Disconnected(k.dest) || e == CleanedUp(k.dest, s.relay.connected[k.dest].generation)))
  }

  /** A frame keeps its content and route forever, and a final fate is final. */
  ghost predicate EntryEvolves(s: System, e: Event, l: Ledger, k: FrameKey)
    requires k in s.relay.ledger.entries
  {
    var before := s.relay.ledger.entries[k];
    && k in l.entries
    && l.entries[k] == before.(fate := l.entries[k].fate)
    && (before.fate == l.entries[k].fate || (IsPending(s.relay.ledger, k) && SettledBy(s, e, k, l.entries[k].fate)))
  }

  lemma AcceptEvolves(s: System, e: Event, k: FrameKey, f: RelayFrame, route: Route, t: map<TaskKey, TaskRecord>)
    requires k !in s.relay.ledger.entries
    ensures forall j :: j in s.relay.ledger.entries ==> EntryEvolves(s, e, Accept(s.relay.ledger.(tasks := t), k, f, route), j)
  {
  }

  lemma SettleEvolves(s: System, e: Event, k: FrameKey, m: Ledger)
    requires Settles(s.relay.ledger, m, k) && SettledBy(s, e, k, m.entries[k].fate)
    ensures forall j :: j in s.relay.ledger.entries ==> EntryEvolves(s, e, m, j)
  {
  }

  lemma AbandonEvolves(s: System, e: Event, ks: set<FrameKey>)
    requires forall k :: k in ks && IsPending(s.relay.ledger, k) ==> SettledBy(s, e, k, Abandoned)
    ensures forall j :: j in s.relay.ledger.entries ==> EntryEvolves(s, e, AbandonAll(s.relay.ledger, ks), j)
  {
  }

  ghost predicate EntriesEvolve(s: System, e: Event, l: Ledger) {
    forall k :: k in s.relay.ledger.entries ==> EntryEvolves(s, e, l, k)
  }

  /** The only entries an event adds: one pending frame, under the id the event was issued. */
  ghost predicate EntriesAdded(s: System, e: Event, l: Ledger) {
    forall k :: k in l.entries && k !in s.relay.ledger.entries ==>
      && l.entries[k].fate.Pending?
      && ((e.TaskPublished? && k.id == e.frameId && l.entries[k].route.ForTask?)
          || (e.FramePublished? && k == FrameKey(e.dest, Trim(e.frame.frameId)) && l.entries[k].route == e.route
              && !e.route.ForTask? && Accepted(RouteWaiting(s.relay, e.route, e.dest, e.frame).1)))
  }

  /** One event keeps the ledger coherent and accounts for every change to it. */
  ghost predicate LedgerStep(s: System, e: Event, l: Ledger) {
    LedgerInv(l) && EntriesEvolve(s, e, l) && EntriesAdded(s, e, l)
  }

  // ---------- The system invariant ----------

  ghost function HeldKeys(publishers: map<nat, Publisher>): set<FrameKey> {
    set p | p in publishers :: publishers[p].key
  }

  /** A publisher's frame is on the ledger under its route, and an ended publisher's frame is settled. */
  ghost predicate PublisherOk(l: Ledger, p: Publisher) {
    && p.key in l.entries && l.entries[p.key].route == p.route && !p.route.ForTask?
    && (l.entries[p.key].fate.Pending? ==> p.armed)
  }

  ghost predicate SysInv(s: System) {
    && LedgerInv(s.relay.ledger)
    && (forall k :: k in s.relay.ledger.entries ==> k.id in s.issued)
    && (forall p :: p in s.publishers ==> PublisherOk(s.relay.ledger, s.publishers[p]))
    && (forall p, q :: p in s.publishers && q in s.publishers && s.publishers[p].key == s.publishers[q].key ==> p == q)
    && (forall k :: k in s.relay.ledger.entries && s.relay.ledger.entries[k].fate.Pending? && !s.relay.ledger.entries[k].route.ForTask?
          ==> k in HeldKeys(s.publishers))
  }

  lemma SameLedgerStep(s: System, e: Event)
    requires SysInv(s)
    ensures LedgerStep(s, e, s.relay.ledger)
  {
  }

  lemma NewIdIsFresh(s: System, id: string, dest: string)
    requires SysInv(s) && NewId(s, id)
    ensures FrameKey(dest, id) !in s.relay.ledger.entries && Fresh(s.relay.ledger, FrameKey(dest, id))
  {
  }

  lemma TaskPublishedStep(s: System, e: Event)
    requires SysInv(s) && Enabled(s, e) && e.TaskPublished?
    ensures LedgerStep(s, e, RelayStep(s, e).ledger)
  {
    hide LedgerInv, Owned, Window, Admissible, Trim;
    NewIdIsFresh(s, e.frameId, e.dest);
    var k := FrameKey(e.dest, e.frameId);
    PublishTaskKeeps(s.relay, TaskKeyOf(e), CanonicalIdentity(e.task), DeliveredTask(e.task, e.features), TaskFrameOf(e), Receipt(e.frameId, e.nowMs));
    if PublishHandler(s.relay, e).1.New? {
      AcceptEvolves(s, e, k, TaskFrameOf(e), ForTask(TaskKeyOf(e)), RoomFor(s.relay.ledger)[TaskKeyOf(e) := TaskRecord(CanonicalIdentity(e.task), Receipt(e.frameId, e.nowMs))]);
    } else {
      SameLedgerStep(s, e);
    }
  }

  lemma FramePublishedStep(s: System, e: Event)
    requires SysInv(s) && Enabled(s, e) && e.FramePublished?
    ensures LedgerStep(s, e, RelayStep(s, e).ledger)
  {
    hide LedgerInv, Owned, Window, Trim;
    NewIdIsFresh(s, e.frame.frameId, e.dest);
    var k := FrameKey(e.dest, Trim(e.frame.frameId));
    RouteWaitingKeeps(s.relay, e.route, e.dest, e.frame);
    if Accepted(RouteWaiting(s.relay, e.route, e.dest, e.frame).1) {
      var l := s.relay.ledger;
      assert l == l.(tasks := l.tasks);
      AcceptEvolves(s, e, k, e.frame, e.route, l.tasks);
    } else {
      SameLedgerStep(s, e);
    }
  }

  lemma SettlementStep(s: System, e: Event)
    requires SysInv(s) && Enabled(s, e) && (e.Acked? || e.ControlCompleted?)
    ensures LedgerStep(s, e, RelayStep(s, e).ledger)
  {
    hide LedgerInv, Window, Trim;
    var m := RelayStep(s, e).ledger;
    var k := FrameKey(Trim(e.dest), Trim(e.id));
    if m == s.relay.ledger {
      SameLedgerStep(s, e);
    } else {
      if e.Acked? {
        AckFrameKeeps(s.relay, e.dest, e.id);
      } else {
        CompleteControlKeeps(s.relay, e.route, e.dest, e.id, e.result);
      }
      SettleEvolves(s, e, k, m);
    }
  }

  lemma DisconnectStep(s: System, e: Event)
    requires SysInv(s) && Enabled(s, e) && (e.Disconnected? || e.CleanedUp?)
    ensures LedgerStep(s, e, RelayStep(s, e).ledger)
  {
    hide LedgerInv;
    if RelayStep(s, e).ledger == s.relay.ledger {
      SameLedgerStep(s, e);
    } else {
      var ks := FleetKeys(s.relay.ledger, e.node);
      AbandonAllKeeps(s.relay.ledger, ks);
      AbandonEvolves(s, e, ks);
    }
  }

  lemma GuardStep(s: System, e: Event)
    requires SysInv(s) && Enabled(s, e) && (e.Observed? || e.Dropped?)
    ensures LedgerStep(s, e, RelayStep(s, e).ledger)
  {
    hide LedgerInv;
    var k := s.publishers[e.pid].key;
    assert PublisherOk(s.relay.ledger, s.publishers[e.pid]);
    if RelayStep(s, e).ledger == s.relay.ledger {
      SameLedgerStep(s, e);
    } else {
      AbandonAllKeeps(s.relay.ledger, {k});
      AbandonEvolves(s, e, {k});
    }
  }

  lemma EveryStep(s: System, e: Event)
    requires SysInv(s) && Enabled(s, e)
    ensures LedgerStep(s, e, RelayStep(s, e).ledger)
  {
    match e
    case TaskPublished(_, _, _, _, _, _, _) => TaskPublishedStep(s, e);
    case FramePublished(_, _, _, _) => FramePublishedStep(s, e);
    case Acked(_, _) => SettlementStep(s, e);
    case ControlCompleted(_, _, _, _) => SettlementStep(s, e);
    case Disconnected(_) => DisconnectStep(s, e);
    case CleanedUp(_, _) => DisconnectStep(s, e);
    case Observed(_) => GuardStep(s, e);
    case Dropped(_) => GuardStep(s, e);
    case _ => SameLedgerStep(s, e);
  }

  lemma IssuedKeeps(s: System, e: Event)
    requires SysInv(s) && Enabled(s, e) && LedgerStep(s, e, RelayStep(s, e).ledger)
    ensures forall k :: k in Step(s, e).relay.ledger.entries ==> k.id in Step(s, e).issued
  {
    hide LedgerInv, RelayStep, RouteWaiting;
  }

  /** A publisher the event does not touch stays right: its frame can only become settled. */
  lemma PublisherKeeps(s: System, e: Event, l: Ledger, p: Publisher)
    requires PublisherOk(s.relay.ledger, p) && EntriesEvolve(s, e, l)
    ensures PublisherOk(l, p)
  {
  }

  lemma EndedIsSettled(s: System, e: Event)
    requires SysInv(s) && Enabled(s, e) && (e.Observed? || e.Dropped?)
    ensures !IsPending(RelayStep(s, e).ledger, s.publishers[e.pid].key)
  {
    hide LedgerInv;
  }

  lemma PublishersKeep(s: System, e: Event, p: nat)
    requires SysInv(s) && Enabled(s, e) && LedgerStep(s, e, RelayStep(s, e).ledger) && p in PublishersStep(s, e)
    ensures PublisherOk(RelayStep(s, e).ledger, PublishersStep(s, e)[p])
  {
    hide LedgerInv, SettledBy;
    var l := RelayStep(s, e).ledger;
    if p in s.publishers {
      PublisherKeeps(s, e, l, s.publishers[p]);
      if (e.Observed? || e.Dropped?) && e.pid == p {
        EndedIsSettled(s, e);
      }
    } else {
      AcceptedIsHeld(s, e);
    }
  }

  lemma AcceptedIsHeld(s: System, e: Event)
    requires SysInv(s) && Enabled(s, e) && e.FramePublished? && Accepted(RouteWaiting(s.relay, e.route, e.dest, e.frame).1)
    ensures PublisherOk(RelayStep(s, e).ledger, Publisher(FrameKey(e.dest, Trim(e.frame.frameId)), e.route, true))
    ensures FrameKey(e.dest, Trim(e.frame.frameId)) !in s.relay.ledger.entries
  {
    hide LedgerInv;
    NewIdIsFresh(s, e.frame.frameId, e.dest);
  }

  lemma HeldDistinct(s: System, e: Event, p: nat, q: nat)
    requires SysInv(s) && Enabled(s, e)
    requires p in PublishersStep(s, e) && q in PublishersStep(s, e) && PublishersStep(s, e)[p].key == PublishersStep(s, e)[q].key
    ensures p == q
  {
    hide LedgerInv, RelayStep;
    if p !in s.publishers || q !in s.publishers {
      AcceptedIsHeld(s, e);
      var old' := if p in s.publishers then p else q;
      assert old' in s.publishers ==> PublisherOk(s.relay.ledger, s.publishers[old']);
    }
  }

  lemma HeldGrows(s: System, e: Event, p: nat)
    requires Enabled(s, e) && p in s.publishers
    ensures s.publishers[p].key in HeldKeys(PublishersStep(s, e))
  {
    hide RouteWaiting, Trim;
    assert p in PublishersStep(s, e) && PublishersStep(s, e)[p].key == s.publishers[p].key;
  }

  lemma HeldKeeps(s: System, e: Event, k: FrameKey)
    requires SysInv(s) && Enabled(s, e) && LedgerStep(s, e, RelayStep(s, e).ledger)
    requires IsPending(RelayStep(s, e).ledger, k) && !RelayStep(s, e).ledger.entries[k].route.ForTask?
    ensures k in HeldKeys(PublishersStep(s, e))
  {
    hide LedgerInv, RelayStep, RouteWaiting, Trim, PublisherOk;
    if k in s.relay.ledger.entries {
      assert EntryEvolves(s, e, RelayStep(s, e).ledger, k);
      var p :| p in s.publishers && s.publishers[p].key == k;
      HeldGrows(s, e, p);
    } else {
      assert PublishersStep(s, e)[e.pid].key == k;
    }
  }

  /** Every enabled event keeps the system invariant. */
  lemma StepKeeps(s: System, e: Event)
    requires SysInv(s) && Enabled(s, e)
    ensures SysInv(Step(s, e))
  {
    hide LedgerInv, RelayStep, PublishersStep, PublisherOk, Enabled;
    EveryStep(s, e);
    IssuedKeeps(s, e);
    var t := Step(s, e);
    forall p | p in t.publishers ensures PublisherOk(t.relay.ledger, t.publishers[p]) {
      PublishersKeep(s, e, p);
    }
    forall p, q | p in t.publishers && q in t.publishers && t.publishers[p].key == t.publishers[q].key ensures p == q {
      HeldDistinct(s, e, p, q);
    }
    forall k | k in t.relay.ledger.entries && t.relay.ledger.entries[k].fate.Pending? && !t.relay.ledger.entries[k].route.ForTask?
      ensures k in HeldKeys(t.publishers)
    {
      HeldKeeps(s, e, k);
    }
  }
}
