/** Retry stability, the acknowledgement window and replay, over every run. */
module RelayGuarantees {
  import opened Basics
  import opened Text
  import opened RelayFrames
  import opened Ledger
  import opened TaskTable
  import opened MailboxDepth
  import Spec = RelaySpec
  import opened RelaySpec
  import opened RelaySystem
  import opened RelayTheorems

  // ---------- Admission ----------

  /**
   A task publication is answered exactly by three facts: whether its identity is retained, whether
   the envelope matches, and whether the ownership table is full. Nothing else ever rejects it, and
   every answer but a new admission leaves the relay as it was.
   */
  lemma AdmissionExact(es: seq<Event>, e: Event)
    requires e.TaskPublished? && Enabled(Exec(es), e)
    ensures var s := Exec(es).relay;
            var l, tk := s.ledger, TaskKeyOf(e);
            var (t, answer) := PublishHandler(s, e);
            if tk in l.tasks then
              t == s && answer == if l.tasks[tk].envelope == CanonicalIdentity(e.task) then Retry(l.tasks[tk].receipt) else Conflict
            else if |Owned(l)| >= MAX_TRACKED_FRAMES then
              t == s && answer == PublishCapacity
            else
              && answer.New? && answer.receipt == Receipt(e.frameId, e.nowMs) && Accepted(answer.delivery)
              && t.ledger == Admit(l, tk, TaskRecord(CanonicalIdentity(e.task), answer.receipt), TaskFrameOf(e))
              && |RoomFor(l)| < MAX_RETAINED_PUBLISHED_TASKS
              && l.tasks.Keys - RoomFor(l).Keys == if |l.tasks| < MAX_RETAINED_PUBLISHED_TASKS then {} else {Evictable(l)[0]}
  {
    hide FramesInv, TasksInv, EvictableOf, Trim, Exec;
    ReachableInv(es);
    var s := Exec(es);
    NewIdIsFresh(s, e.frameId, e.dest);
    UnknownIsUntracked(s.relay.ledger, FrameKey(e.dest, e.frameId));
    if |Owned(s.relay.ledger)| < MAX_TRACKED_FRAMES {
      RoomForIsRoom(s.relay.ledger);
    }
  }

  /** The relay-projected metadata entry is irrelevant to identity, and it is the only thing that is. */
  lemma IdentityIgnoresProjection(a: TaskEnvelope, b: TaskEnvelope)
    ensures CanonicalIdentity(a) == CanonicalIdentity(b) <==>
              && a.body == b.body
              && (forall key :: key != SOURCE_FEATURES_KEY ==> (key in a.metadata <==> key in b.metadata))
              && (forall key :: key != SOURCE_FEATURES_KEY && key in a.metadata && key in b.metadata ==> a.metadata[key] == b.metadata[key])
  {
    var x, y := CanonicalIdentity(a).metadata, CanonicalIdentity(b).metadata;
    if CanonicalIdentity(a) == CanonicalIdentity(b) {
      forall key | key != SOURCE_FEATURES_KEY
        ensures (key in a.metadata <==> key in b.metadata)
                && (key in a.metadata && key in b.metadata ==> a.metadata[key] == b.metadata[key])
      {
        assert key in a.metadata <==> key in x;
        assert key in b.metadata <==> key in y;
        if key in a.metadata { assert x[key] == y[key]; }
      }
    }
  }

  /** At most one owned frame carries a given task identity. */
  lemma OneFramePerTask(es: seq<Event>, j: FrameKey, k: FrameKey)
    requires var l := Exec(es).relay.ledger;
             IsPending(l, j) && IsPending(l, k) && l.entries[j].route.ForTask? && l.entries[j].route == l.entries[k].route
    ensures j == k
  {
    hide FramesInv, Exec;
    ReachableInv(es);
    var l := Exec(es).relay.ledger;
    assert Retained(j, l.entries, l.tasks) && Retained(k, l.entries, l.tasks);
  }

  // ---------- Retry stability ----------

  /** An event takes an identity out of the table only by evicting it: a full table, its oldest acknowledged identity, for a new admission. */
  ghost predicate Evicts(s: System, e: Event, tk: TaskKey) {
    var l := s.relay.ledger;
    && e.TaskPublished? && Enabled(s, e) && PublishHandler(s.relay, e).1.New? && |l.tasks| == 8192
    && Evictable(l) != [] && Evictable(l)[0] == tk && tk in l.tasks
    && TaskFrame(tk, l.tasks[tk]) in l.entries && l.entries[TaskFrame(tk, l.tasks[tk])].fate.Acknowledged?
  }

  lemma TaskEvolves(s: System, e: Event, tk: TaskKey)
    requires SysInv(s) && tk in s.relay.ledger.tasks
    ensures var l, m := s.relay.ledger, Next(s, e).relay.ledger;
            (tk in m.tasks && m.tasks[tk] == l.tasks[tk]) || Evicts(s, e, tk)
  {
    hide FramesInv, TasksInv, Evicts, PublishTask, Trim, Owned, Window, Waiting, Admissible, IsPending, Mailbox;
    if Enabled(s, e) && e.TaskPublished? {
      AdmissionEvicts(s, e, tk);
    }
  }

  lemma AdmissionEvicts(s: System, e: Event, tk: TaskKey)
    requires LedgerInv(s.relay.ledger) && tk in s.relay.ledger.tasks && e.TaskPublished? && Enabled(s, e)
    ensures var l, m := s.relay.ledger, PublishHandler(s.relay, e).0.ledger;
            (tk in m.tasks && m.tasks[tk] == l.tasks[tk]) || Evicts(s, e, tk)
  {
    hide FramesInv, EvictableOf, Trim, Owned, Window, Accept;
    var l := s.relay.ledger;
    EvictableExact(l, tk);
    RoomTasks(l, TaskKeyOf(e), TaskRecord(CanonicalIdentity(e.task), Receipt(e.frameId, e.nowMs)), TaskFrameOf(e));
  }

  lemma RoomTasks(l: Ledger, tk: TaskKey, rec: TaskRecord, f: RelayFrame)
    ensures Admit(l, tk, rec, f).tasks == RoomFor(l)[tk := rec]
  {
  }

  ghost predicate EvictedWithin(es: seq<Event>, i: nat, j: nat, tk: TaskKey, rec: TaskRecord)
    requires i <= j <= |es|
  {
    exists m :: i <= m < j && tk in LedgerAt(es, m).tasks && LedgerAt(es, m).tasks[tk] == rec && Evicts(Exec(es[..m]), es[m], tk)
  }

  /** From admission on, an identity keeps its envelope and its original receipt until it is evicted. */
  lemma {:induction false} RetainedUntilEvicted(es: seq<Event>, i: nat, j: nat, tk: TaskKey)
    requires i <= j <= |es| && tk in LedgerAt(es, i).tasks
    ensures (tk in LedgerAt(es, j).tasks && LedgerAt(es, j).tasks[tk] == LedgerAt(es, i).tasks[tk])
         || EvictedWithin(es, i, j, tk, LedgerAt(es, i).tasks[tk])
    decreases j
  {
    hide SysInv, Evicts, Next, Exec;
    if i < j {
      RetainedUntilEvicted(es, i, j - 1, tk);
      if tk in LedgerAt(es, j - 1).tasks && LedgerAt(es, j - 1).tasks[tk] == LedgerAt(es, i).tasks[tk] {
        ReachableInv(es[..j - 1]);
        ExecNext(es, j - 1);
        TaskEvolves(Exec(es[..j - 1]), es[j - 1], tk);
      }
    }
  }

  /** Eviction can only follow acknowledgement. */
  lemma EvictedWasAcknowledged(es: seq<Event>, i: nat, tk: TaskKey, rec: TaskRecord)
    requires i <= |es| && EvictedWithin(es, i, |es|, tk, rec)
    ensures var l := Exec(es).relay.ledger;
            TaskFrame(tk, rec) in l.entries && l.entries[TaskFrame(tk, rec)].fate.Acknowledged?
  {
    hide Exec, EvictableOf, Next;
    assert es[..|es|] == es;
    var m :| i <= m < |es| && tk in LedgerAt(es, m).tasks && LedgerAt(es, m).tasks[tk] == rec && Evicts(Exec(es[..m]), es[m], tk);
    FateIsFinal(es, m, |es|, TaskFrame(tk, rec));
  }

  /**
   Retry stability. From admission until eviction, whatever else happens, republishing an identity
   answers with the original receipt, a different envelope answers Conflict, and neither changes the
   relay. Eviction happens only to an identity whose frame was acknowledged.
   */
  lemma RetryStability(es: seq<Event>, i: nat, tk: TaskKey, e: Event)
    requires i <= |es| && tk in LedgerAt(es, i).tasks
    requires e.TaskPublished? && Enabled(Exec(es), e) && TaskKeyOf(e) == tk
    ensures var rec := LedgerAt(es, i).tasks[tk];
            var s := Exec(es).relay;
            if EvictedWithin(es, i, |es|, tk, rec)
            then TaskFrame(tk, rec) in s.ledger.entries && s.ledger.entries[TaskFrame(tk, rec)].fate.Acknowledged?
            else PublishHandler(s, e) == (s, if rec.envelope == CanonicalIdentity(e.task) then Retry(rec.receipt) else Conflict)
  {
    hide Exec, Evictable, Evicts, Next, Enabled, Owned, Admit, RoomFor;
    assert es[..|es|] == es;
    var rec := LedgerAt(es, i).tasks[tk];
    RetainedUntilEvicted(es, i, |es|, tk);
    if EvictedWithin(es, i, |es|, tk, rec) {
      EvictedWasAcknowledged(es, i, tk, rec);
    } else {
      AdmissionExact(es, e);
    }
  }

  // ---------- Typed waiters ----------

  /** The payload kinds the three typed waiter maps stand for. */
  ghost predicate OfKind(f: RelayFrame, route: Route) {
    match route
    case ForBind => f.bindV1.Some? || f.bindV2.Some?
    case ForChallenge => f.challengeV1.Some? || f.challengeV2.Some?
    case ForFleet => f.fleet.Some?
    case _ => false
  }

  /** A typed waiter map holds exactly the owned keys whose mailboxed frame carries that kind of payload; so the maps are disjoint. */
  lemma TypedWaitersAreMailboxedKinds(es: seq<Event>, route: Route, k: FrameKey)
    requires Typed(route)
    ensures var l := Exec(es).relay.ledger;
            k in Waiting(l, route) <==>
              exists i :: 0 <= i < |Mailbox(l, k.dest)| && Trim(Mailbox(l, k.dest)[i].frameId) == k.id && OfKind(Mailbox(l, k.dest)[i], route)
  {
    hide Exec;
    ReachableInv(es);
    KindIsRoute(Exec(es).relay.ledger, route, k);
  }

  lemma KindIsRoute(l: Ledger, route: Route, k: FrameKey)
    requires FramesInv(l) && Typed(route)
    ensures k in Waiting(l, route) <==>
              exists i :: 0 <= i < |Mailbox(l, k.dest)| && Trim(Mailbox(l, k.dest)[i].frameId) == k.id && OfKind(Mailbox(l, k.dest)[i], route)
  {
    hide MailboxOf, Trim, AcksInv, OrderInv;
    OwnedIffMailboxed(l, k);
    forall i | 0 <= i < |Mailbox(l, k.dest)| && Trim(Mailbox(l, k.dest)[i].frameId) == k.id
      ensures k in Waiting(l, route) <==> OfKind(Mailbox(l, k.dest)[i], route)
    {
      MailboxedIsPending(l, k.dest, i);
      assert EntryOk(k, l.entries[k]);
    }
  }

  // ---------- The acknowledgement window ----------

  lemma AcksEvolve(s: System, e: Event)
    ensures var l, m := s.relay.ledger, Next(s, e).relay.ledger;
            m.acks == l.acks || (e.Acked? && m.acks == l.acks + [FrameKey(Trim(e.dest), Trim(e.id))])
  {
    hide Owned, Window, Admissible, EvictableOf, Trim;
  }

  /** Acknowledgements are only ever appended. */
  lemma {:induction false} AcksGrow(es: seq<Event>, i: nat, j: nat)
    requires i <= j <= |es|
    ensures LedgerAt(es, i).acks <= LedgerAt(es, j).acks
    decreases j
  {
    hide Next, Exec;
    if i < j {
      AcksGrow(es, i, j - 1);
      ExecNext(es, j - 1);
      AcksEvolve(Exec(es[..j - 1]), es[j - 1]);
    }
  }

  lemma AckedKeyIsTrimmed(s: System, e: Event, k: FrameKey)
    requires k in Next(s, e).relay.ledger.acks && k !in s.relay.ledger.acks
    ensures k.dest != "" && Trim(k.dest) == k.dest
  {
    hide Owned, Window, Admissible, EvictableOf, Trim;
    AcksEvolve(s, e);
    TrimIdempotent(e.dest);
  }

  /** Every acknowledged key names a trimmed, non-empty destination. */
  lemma {:induction false} AcksAreTrimmed(es: seq<Event>)
    ensures forall k :: k in Exec(es).relay.ledger.acks ==> k.dest != "" && Trim(k.dest) == k.dest
  {
    hide Next, Trim;
    if es != [] {
      var n := |es| - 1;
      AcksAreTrimmed(es[..n]);
      forall k | k in Exec(es).relay.ledger.acks && k !in Exec(es[..n]).relay.ledger.acks
        ensures k.dest != "" && Trim(k.dest) == k.dest
      {
        AckedKeyIsTrimmed(Exec(es[..n]), es[n], k);
      }
    }
  }

  /** The `p`-th acknowledgement is in the window iff fewer than the window's size came after it. */
  lemma InWindow(l: Ledger, p: nat)
    requires AcksInv(l) && p < |l.acks|
    ensures l.acks[p] in Window(l) <==> |l.acks| - p <= MAX_RECENT_ACKNOWLEDGEMENTS
  {
  }

  /**
   A frame acknowledged by point `i` of a run is, at any later point `j`, still acknowledged
   idempotently and still refused as a duplicate exactly while fewer than
   MAX_RECENT_ACKNOWLEDGEMENTS further frames have been acknowledged after it. Asking changes nothing.
   */
  lemma AcknowledgementWindow(es: seq<Event>, i: nat, j: nat, p: nat, f: RelayFrame, route: Route)
    requires i <= j <= |es| && p < |LedgerAt(es, i).acks|
    requires Trim(f.frameId) == LedgerAt(es, i).acks[p].id && ExactlyOnePayload(f)
    ensures var k, s := LedgerAt(es, i).acks[p], Exec(es[..j]).relay;
            var recent := |s.ledger.acks| - p <= MAX_RECENT_ACKNOWLEDGEMENTS;
            && p < |s.ledger.acks| && s.ledger.acks[p] == k
            && (Spec.AckFrame(s, k.dest, k.id).1 == AckAccepted <==> recent)
            && Spec.AckFrame(s, k.dest, k.id).0 == s
            && (RouteLocked(s, k.dest, f, route).1 == RejectedDuplicate <==> recent)
  {
    hide Exec, MailboxOf, Trim;
    AcksGrow(es, i, j);
    ReachableInv(es[..j]);
    var l, k := LedgerAt(es, j), LedgerAt(es, i).acks[p];
    assert l.acks[p] == k;
    InWindow(l, p);
    AcksAreTrimmed(es[..j]);
    AckedAnswers(Exec(es[..j]).relay, k, f, route);
  }

  lemma AckedAnswers(s: RelayState, k: FrameKey, f: RelayFrame, route: Route)
    requires FramesInv(s.ledger) && k in s.ledger.acks
    requires k.dest != "" && Trim(k.dest) == k.dest && Trim(f.frameId) == k.id && ExactlyOnePayload(f)
    ensures Spec.AckFrame(s, k.dest, k.id).0 == s
    ensures Spec.AckFrame(s, k.dest, k.id).1 == AckAccepted <==> k in Window(s.ledger)
    ensures RouteLocked(s, k.dest, f, route).1 == RejectedDuplicate <==> k in Window(s.ledger)
  {
    assert EntryOk(k, s.ledger.entries[k]);
    TrimIdempotent(s.ledger.entries[k].frame.frameId);
  }

  // ---------- Reconnect replay ----------

  /**
   A node that connects through the handler's channel is always installed, and its stream holds its
   whole mailbox in acceptance order.
   */
  lemma ReplayIsComplete(es: seq<Event>, node: string)
    ensures var s := Exec(es).relay;
            var box := Mailbox(s.ledger, node);
            var (t, replayed, generation) := Connect(s, node, Stream(RELAY_STREAM_BUFFER, [], true));
            && replayed == |box| <= RELAY_STREAM_BUFFER && t.ledger == s.ledger && t.registered == s.registered + {node}
            && t.connected - {node} == s.connected - {node}
            && node in t.connected && t.connected[node] == Connection(generation, Stream(RELAY_STREAM_BUFFER, box, true))
  {
    hide Exec, MailboxOf;
    ReachableInv(es);
    MailboxAtMostOwned(Exec(es).relay.ledger, node);
    var box := Mailbox(Exec(es).relay.ledger, node);
    assert [] + box == box;
  }
}
