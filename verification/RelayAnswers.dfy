/** What the relay answers to acknowledgements, completions, routes and disconnects, said on its mailboxes, in every run. */
module RelayAnswers {
  import opened Basics
  import opened Text
  import opened RelayFrames
  import opened Ledger
  import opened TaskTable
  import Spec = RelaySpec
  import opened RelaySpec
  import opened RelaySystem
  import opened RelayTheorems
  import opened RelayGuarantees
  import opened RelayConservation
  import opened RelayStreams
  import R = RelayRuntime
  import P = RelayPublications

  // ---------- Reading mailboxes ----------

  predicate IsPlain(f: RelayFrame) {
    f.task.Some? || f.result.Some?
  }

  ghost predicate Mailed(l: Ledger, d: string, id: string) {
    exists i :: 0 <= i < |Mailbox(l, d)| && Trim(Mailbox(l, d)[i].frameId) == id
  }

  ghost predicate MailedPlain(l: Ledger, d: string, id: string) {
    exists i :: 0 <= i < |Mailbox(l, d)| && Trim(Mailbox(l, d)[i].frameId) == id && IsPlain(Mailbox(l, d)[i])
  }

  ghost predicate MailedKind(l: Ledger, d: string, id: string, route: Route) {
    exists i :: 0 <= i < |Mailbox(l, d)| && Trim(Mailbox(l, d)[i].frameId) == id && OfKind(Mailbox(l, d)[i], route)
  }

  ghost predicate MailedTyped(l: Ledger, d: string, id: string) {
    MailedKind(l, d, id, ForBind) || MailedKind(l, d, id, ForChallenge) || MailedKind(l, d, id, ForFleet)
  }

  /** The key is among the last 8192 acknowledgements. */
  ghost predicate Recent(acks: seq<FrameKey>, k: FrameKey) {
    exists p :: 0 <= p < |acks| && |acks| - p <= 8192 && acks[p] == k
  }

  lemma MailedIffPending(l: Ledger, k: FrameKey)
    requires FramesInv(l)
    ensures Mailed(l, k.dest, k.id) <==> IsPending(l, k)
    ensures MailedPlain(l, k.dest, k.id) <==> IsPending(l, k) && !Typed(l.entries[k].route)
  {
    hide MailboxOf, Trim, AcksInv, OrderInv;
    OwnedIffMailboxed(l, k);
    forall i | 0 <= i < |Mailbox(l, k.dest)| && Trim(Mailbox(l, k.dest)[i].frameId) == k.id
      ensures IsPending(l, k) && (IsPlain(Mailbox(l, k.dest)[i]) <==> !Typed(l.entries[k].route))
    {
      MailboxedIsPending(l, k.dest, i);
      assert EntryOk(k, l.entries[k]);
    }
  }

  lemma TypedIffPending(l: Ledger, k: FrameKey)
    requires FramesInv(l)
    ensures MailedTyped(l, k.dest, k.id) <==> IsPending(l, k) && Typed(l.entries[k].route)
  {
    hide FramesInv, Mailbox, Trim, OfKind;
    KindIsRoute(l, ForBind, k);
    KindIsRoute(l, ForChallenge, k);
    KindIsRoute(l, ForFleet, k);
  }

  lemma RecentIsWindow(l: Ledger, k: FrameKey)
    requires AcksInv(l)
    ensures Recent(l.acks, k) <==> k in Window(l)
  {
    hide AcksInv, Window;
    WindowIsAcked(l);
    forall p | 0 <= p < |l.acks| && l.acks[p] == k ensures |l.acks| - p <= 8192 <==> k in Window(l) {
      InWindow(l, p);
    }
  }

  lemma WindowIsAcked(l: Ledger)
    ensures forall k :: k in Window(l) ==> k in l.acks
  {
  }

  lemma ElsewhereIsMailed(l: Ledger, id: string)
    requires FramesInv(l)
    ensures SameIdElsewhere(Owned(l), id) <==> exists d :: Mailed(l, d, id)
  {
    hide FramesInv, Mailed;
    if SameIdElsewhere(Owned(l), id) {
      var k :| k in Owned(l) && k.id == id;
      MailedIffPending(l, k);
    }
    forall d | Mailed(l, d, id) ensures SameIdElsewhere(Owned(l), id) {
      MailedIffPending(l, FrameKey(d, id));
      assert FrameKey(d, id) in Owned(l);
    }
  }

  lemma KindElsewhere(l: Ledger, id: string, route: Route)
    requires FramesInv(l) && Typed(route)
    ensures SameIdElsewhere(Waiting(l, route), id) <==> exists d :: MailedKind(l, d, id, route)
  {
    hide FramesInv, MailedKind, Mailbox;
    if SameIdElsewhere(Waiting(l, route), id) {
      var k :| k in Waiting(l, route) && k.id == id;
      KindIsMailed(l, route, k);
    }
    forall d | MailedKind(l, d, id, route) ensures SameIdElsewhere(Waiting(l, route), id) {
      KindIsMailed(l, route, FrameKey(d, id));
      assert FrameKey(d, id) in Waiting(l, route);
    }
  }

  lemma KindIsMailed(l: Ledger, route: Route, k: FrameKey)
    requires FramesInv(l) && Typed(route)
    ensures k in Waiting(l, route) <==> MailedKind(l, k.dest, k.id, route)
  {
    hide FramesInv, Mailbox, OfKind, Trim;
    KindIsRoute(l, route, k);
  }

  // ---------- One frame leaves ----------

  /** `after` is `before` without one frame, which had this id. */
  predicate OneTaken(before: seq<RelayFrame>, after: seq<RelayFrame>, id: string) {
    exists i :: 0 <= i < |before| && Trim(before[i].frameId) == id && after == before[..i] + before[i + 1..]
  }

  /** The frame under `k` leaves its mailbox with this fate; no other mailbox and no other entry changes. */
  ghost predicate LeavesAs(l: Ledger, m: Ledger, k: FrameKey, fate: Fate) {
    && k in l.entries && m.entries == l.entries[k := l.entries[k].(fate := fate)]
    && m.order == l.order && m.tasks == l.tasks
    && OneTaken(Mailbox(l, k.dest), Mailbox(m, k.dest), k.id)
    && forall d :: d != k.dest ==> Mailbox(m, d) == Mailbox(l, d)
  }

  lemma KeepTakesOne(box: seq<RelayFrame>, id: string, i: nat)
    requires R.DistinctIds(box) && i < |box| && Trim(box[i].frameId) == id
    ensures OneTaken(box, Keep(box, OtherId(id)), id)
  {
    hide Trim;
    R.RemoveAtIsKeep(box, i, OtherId(id));
  }

  lemma SettledLeaves(l: Ledger, m: Ledger, k: FrameKey, fate: Fate)
    requires FramesInv(l) && IsPending(l, k) && !fate.Pending? && m.order == l.order && m.tasks == l.tasks
    requires m.entries == l.entries[k := l.entries[k].(fate := fate)]
    ensures LeavesAs(l, m, k, fate)
  {
    hide MailboxOf, Trim, FramesInv, Keep;
    SettleMailbox(l, m, k);
    MailedIffPending(l, k);
    var i :| 0 <= i < |Mailbox(l, k.dest)| && Trim(Mailbox(l, k.dest)[i].frameId) == k.id;
    MailboxIsDistinct(l, k.dest);
    KeepTakesOne(Mailbox(l, k.dest), k.id, i);
  }

  lemma MailboxIsDistinct(l: Ledger, d: string)
    requires FramesInv(l)
    ensures R.DistinctIds(Mailbox(l, d))
  {
    hide MailboxOf, Trim, FramesInv;
    forall i, j | 0 <= i < j < |Mailbox(l, d)| ensures Trim(Mailbox(l, d)[i].frameId) != Trim(Mailbox(l, d)[j].frameId) {
      MailboxPair(l, d, i, j);
    }
  }

  // ---------- Acknowledgements ----------

  /**
   Every answer to an acknowledgement. A mailboxed task or result frame of the exact destination is
   taken as acknowledged. Anything else changes nothing; it is accepted exactly when it repeats a
   recent acknowledgement, and of the rest it has the wrong destination exactly when the id is
   mailboxed elsewhere and not as a typed control here.
   */
  ghost predicate AckAnswered(s: RelayState, t: RelayState, answer: FrameAcknowledgement, k: FrameKey) {
    var l := s.ledger;
    if k.dest == "" || k.id == "" then t == s && answer == AckUnknownFrame
    else if MailedPlain(l, k.dest, k.id) then
      && answer == AckAccepted && t == s.(ledger := t.ledger)
      && LeavesAs(l, t.ledger, k, Acknowledged) && t.ledger.acks == l.acks + [k]
    else
      && t == s
      && answer == if Recent(l.acks, k) then AckAccepted
                   else if (exists d :: d != k.dest && Mailed(l, d, k.id)) && !MailedTyped(l, k.dest, k.id) then AckWrongDestination
                   else AckUnknownFrame
  }

  lemma PendingIsNotRecent(l: Ledger, k: FrameKey)
    requires FramesInv(l) && IsPending(l, k)
    ensures k !in Window(l)
  {
    WindowIsAcked(l);
  }

  lemma AckFrameAnswers(s: RelayState, dest: string, id: string)
    requires FramesInv(s.ledger)
    ensures var (t, answer) := Spec.AckFrame(s, dest, id);
            AckAnswered(s, t, answer, FrameKey(Trim(dest), Trim(id)))
  {
    hide FramesInv, Mailed, MailedPlain, MailedTyped, Recent, Window, Trim, LeavesAs, SameIdElsewhere;
    var l, k := s.ledger, FrameKey(Trim(dest), Trim(id));
    MailedIffPending(l, k);
    TypedIffPending(l, k);
    RecentInv(l, k);
    ElsewhereIsMailed(l, k.id);
    if IsPending(l, k) {
      PendingIsNotRecent(l, k);
      if !Typed(l.entries[k].route) {
        SettledLeaves(l, Acknowledge(l, k), k, Acknowledged);
      }
    }
  }

  lemma RecentInv(l: Ledger, k: FrameKey)
    requires FramesInv(l)
    ensures Recent(l.acks, k) <==> k in Window(l)
  {
    hide Recent, Window;
    RecentIsWindow(l, k);
  }

  lemma AcknowledgementAnswers(es: seq<Event>, dest: string, id: string)
    ensures var s := Exec(es).relay;
            var (t, answer) := Spec.AckFrame(s, dest, id);
            AckAnswered(s, t, answer, FrameKey(Trim(dest), Trim(id))) && Next(Exec(es), Acked(dest, id)).relay == t
  {
    hide Exec, AckAnswered, Spec.AckFrame, FramesInv;
    ReachableInv(es);
    AckFrameAnswers(Exec(es).relay, dest, id);
  }

  // ---------- Completions ----------

  /**
   Every answer to a completion of one kind. A mailboxed frame of that kind, of the exact destination,
   is taken as completed with the result. Anything else changes nothing, and has the wrong destination
   exactly when the id is mailboxed elsewhere as that kind.
   */
  ghost predicate CompletionAnswered(
      s: RelayState, t: RelayState, answer: ControlCompletion, route: Route, k: FrameKey, result: string)
  {
    var l := s.ledger;
    if k.dest == "" || k.id == "" then t == s && answer == CompletionUnknownFrame
    else if MailedKind(l, k.dest, k.id, route) then
      && answer == CompletionAccepted && t == s.(ledger := t.ledger)
      && LeavesAs(l, t.ledger, k, Completed(result)) && t.ledger.acks == l.acks
    else
      && t == s
      && answer == if exists d :: d != k.dest && MailedKind(l, d, k.id, route) then CompletionWrongDestination
                   else CompletionUnknownFrame
  }

  lemma CompleteControlAnswers(s: RelayState, route: Route, dest: string, id: string, result: string)
    requires FramesInv(s.ledger) && Typed(route)
    ensures var (t, answer) := Spec.CompleteControl(s, route, dest, id, result);
            CompletionAnswered(s, t, answer, route, FrameKey(Trim(dest), Trim(id)), result)
  {
    hide FramesInv, MailedKind, Trim, LeavesAs, SameIdElsewhere;
    var l, k := s.ledger, FrameKey(Trim(dest), Trim(id));
    KindIsMailed(l, route, k);
    KindElsewhere(l, k.id, route);
    if k in Waiting(l, route) {
      SettledLeaves(l, Complete(l, k, result), k, Completed(result));
    }
  }

  lemma CompletionAnswers(es: seq<Event>, route: Route, dest: string, id: string, result: string)
    requires Typed(route)
    ensures var s := Exec(es).relay;
            var (t, answer) := Spec.CompleteControl(s, route, dest, id, result);
            && CompletionAnswered(s, t, answer, route, FrameKey(Trim(dest), Trim(id)), result)
            && Next(Exec(es), ControlCompleted(route, dest, id, result)).relay == t
  {
    hide Exec, CompletionAnswered, Spec.CompleteControl, FramesInv;
    ReachableInv(es);
    CompleteControlAnswers(Exec(es).relay, route, dest, id, result);
  }

  // ---------- Routes ----------

  /** Exactly the payload fields marked true are present. */
  predicate Only(f: RelayFrame, task: bool, result: bool, bindV1: bool, challengeV1: bool, bindV2: bool, challengeV2: bool, fleet: bool) {
    && f.task.Some? == task && f.result.Some? == result && f.bindV1.Some? == bindV1 && f.challengeV1.Some? == challengeV1
    && f.bindV2.Some? == bindV2 && f.challengeV2.Some? == challengeV2 && f.fleet.Some? == fleet
  }

  /** The frame carries one payload, of the kind its route is for, and a typed control names its target or nothing. */
  predicate Fits(f: RelayFrame, route: Route, dest: string) {
    match route
    case ForTask(_) => false
    case ForAck => Only(f, true, false, false, false, false, false, false) || Only(f, false, true, false, false, false, false, false)
    case ForBind => Targets(f, dest) && (Only(f, false, false, true, false, false, false, false) || Only(f, false, false, false, false, true, false, false))
    case ForChallenge => Targets(f, dest) && (Only(f, false, false, false, true, false, false, false) || Only(f, false, false, false, false, false, true, false))
    case ForFleet => Targets(f, dest) && Only(f, false, false, false, false, false, false, true)
  }

  predicate Targets(f: RelayFrame, dest: string) {
    Trim(dest) != "" && (Trim(f.destination) == "" || f.destination == dest)
  }

  lemma FitsIsAdmissible(f: RelayFrame, route: Route, dest: string)
    ensures Fits(f, route, dest) <==> Admissible(route, dest, f) && ExactlyOnePayload(f)
  {
    hide Trim;
  }

  /**
   Every answer to a publication that waits. A frame that does not fit is invalid, one that does is
   refused exactly when 8192 are pending, and neither changes the relay. Otherwise it is at the back of
   its mailbox, delivered exactly when its destination is connected with room, and its publisher holds
   an armed guard on it.
   */
  ghost predicate RouteAnswered(s: System, t: System, answer: FrameDelivery, e: Event)
    requires e.FramePublished?
  {
    var l, m, k := s.relay.ledger, t.relay.ledger, FrameKey(e.dest, e.frame.frameId);
    if !Fits(e.frame, e.route, e.dest) then answer == RejectedInvalid && t.relay == s.relay && t.publishers == s.publishers
    else if |Owned(l)| >= 8192 then answer == RejectedCapacity && t.relay == s.relay && t.publishers == s.publishers
    else
      && answer == (if e.dest in s.relay.connected && HasRoom(s.relay.connected[e.dest].stream) then Delivered else Mailboxed)
      && Mailbox(m, e.dest) == Mailbox(l, e.dest) + [e.frame] && (forall d :: d != e.dest ==> Mailbox(m, d) == Mailbox(l, d))
      && m.acks == l.acks && m.tasks == l.tasks && t.relay.registered == s.relay.registered + {e.dest}
      && t.publishers == s.publishers[e.pid := Publisher(k, e.route, true)]
  }

  lemma RouteFacts(s: System, e: Event)
    requires SysInv(s) && e.FramePublished? && Enabled(s, e)
    ensures var k := FrameKey(e.dest, e.frame.frameId);
            Trim(e.frame.frameId) == e.frame.frameId != "" && k !in s.relay.ledger.entries && k !in Owned(s.relay.ledger) && k !in Window(s.relay.ledger)
  {
    hide FramesInv, TasksInv, Trim, PublisherOk, HeldKeys;
    NewIdIsFresh(s, e.frame.frameId, e.dest);
    UnknownIsUntracked(s.relay.ledger, FrameKey(e.dest, e.frame.frameId));
  }

  lemma FramePublishedAnswers(s: System, e: Event)
    requires SysInv(s) && e.FramePublished? && Enabled(s, e)
    ensures RouteAnswered(s, Next(s, e), RouteWaiting(s.relay, e.route, e.dest, e.frame).1, e)
  {
    hide SysInv, LedgerInv, Trim, Deliver, MailboxOf, Owned, Window, Admissible, ExactlyOnePayload, Fits;
    RouteFacts(s, e);
    FitsIsAdmissible(e.frame, e.route, e.dest);
    AdmissibleRoutes(e.route, e.dest, e.frame);
    DeliverQueues(s.relay.connected, e.dest, e.frame);
    R.DeliverAccepts(s.relay.connected, e.dest, e.frame);
    if AcceptedKey(s, e).Some? {
      FrameAccepted(s, e);
      FramesOf(s);
      P.AcceptedMailbox(s.relay.ledger, Next(s, e).relay.ledger, FrameKey(e.dest, e.frame.frameId), e.frame, e.route);
    }
  }

  lemma AdmissibleRoutes(route: Route, dest: string, f: RelayFrame)
    ensures Admissible(route, dest, f) ==> !route.ForTask?
  {
  }

  lemma FramesOf(s: System)
    requires SysInv(s)
    ensures FramesInv(s.relay.ledger)
  {
  }

  lemma RouteAnswers(es: seq<Event>, e: Event)
    requires e.FramePublished? && Enabled(Exec(es), e)
    ensures RouteAnswered(Exec(es), Next(Exec(es), e), RouteWaiting(Exec(es).relay, e.route, e.dest, e.frame).1, e)
  {
    hide Exec, RouteAnswered, SysInv, Next, RouteWaiting;
    ReachableInv(es);
    FramePublishedAnswers(Exec(es), e);
  }

  /** A pending key presented again is refused as a duplicate, with nothing changed. */
  lemma PendingIsDuplicate(s: RelayState, k: FrameKey, f: RelayFrame, route: Route)
    requires FramesInv(s.ledger) && Mailed(s.ledger, k.dest, k.id) && Trim(f.frameId) == k.id && ExactlyOnePayload(f)
    ensures RouteLocked(s, k.dest, f, route) == (s, RejectedDuplicate)
  {
    hide Mailed, Trim, ExactlyOnePayload, Window;
    MailedIffPending(s.ledger, k);
    assert EntryOk(k, s.ledger.entries[k]);
  }

  // ---------- Disconnects ----------

  /**
   A disconnect of a connected node removes its connection and takes exactly the Fleet frames out of
   its mailbox, as abandoned; every other frame, mailbox and connection stays.
   */
  lemma DisconnectAnswers(es: seq<Event>, node: string)
    ensures var s, t := Exec(es).relay, Next(Exec(es), Disconnected(node)).relay;
            if node !in s.connected then t == s
            else
              && t.connected == s.connected - {node} && t.registered == s.registered && t.generation == s.generation
              && t.ledger.order == s.ledger.order && t.ledger.acks == s.ledger.acks && t.ledger.tasks == s.ledger.tasks
              && (forall f :: f in Mailbox(t.ledger, node) <==> f in Mailbox(s.ledger, node) && f.fleet.None?)
              && (forall d :: d != node ==> Mailbox(t.ledger, d) == Mailbox(s.ledger, d))
              && t.ledger.entries.Keys == s.ledger.entries.Keys
              && (forall k :: k in s.ledger.entries ==>
                    t.ledger.entries[k] == if IsPending(s.ledger, k) && k.dest == node && s.ledger.entries[k].frame.fleet.Some?
                                           then s.ledger.entries[k].(fate := Abandoned) else s.ledger.entries[k])
  {
    hide Exec, Mailbox, FramesInv;
    ReachableInv(es);
    var l := Exec(es).relay.ledger;
    if node in Exec(es).relay.connected {
      AbandonFleetMailbox(l, node);
      FleetPayloadsOf(l);
      KeepMembers(Mailbox(l, node), NotFleet());
    }
  }

  lemma FleetPayloadsOf(l: Ledger)
    requires FramesInv(l)
    ensures forall k :: k in l.entries ==> (l.entries[k].frame.fleet.None? <==> l.entries[k].route != ForFleet)
  {
    FleetPayloads(l);
  }

  lemma {:induction false} KeepMembers(s: seq<RelayFrame>, p: RelayFrame -> bool)
    ensures forall f :: f in Keep(s, p) <==> f in s && p(f)
  {
    if s != [] {
      KeepMembers(s[..|s| - 1], p);
      assert s == s[..|s| - 1] + [s[|s| - 1]];
    }
  }
}
