/** Task publication over every run, said on the fields of the events: who shares an identity, what is answered, what is carried. */
module RelayPublications {
  import opened Basics
  import opened Text
  import opened RelayFrames
  import opened Ledger
  import opened TaskTable
  import opened RelaySpec
  import opened RelaySystem
  import opened RelayTheorems
  import opened RelayGuarantees
  import opened RelayConservation
  import opened RelayStreams

  ghost function Answer(es: seq<Event>, e: Event): PublishedTaskDelivery
    requires e.TaskPublished?
  {
    PublishHandler(Exec(es).relay, e).1
  }

  /** The event is a publication of the task `id` from `source` to `dest`, up to whitespace around the id. */
  predicate Names(e: Event, source: string, dest: string, id: string) {
    e.TaskPublished? && e.source == source && e.dest == dest && Trim(e.taskId) == id
  }

  /** The event at `i` admitted a new identity. */
  ghost predicate AnsweredNew(es: seq<Event>, i: nat) {
    i < |es| && es[i].TaskPublished? && Enabled(Exec(es[..i]), es[i]) && Answer(es[..i], es[i]).New?
  }

  ghost predicate EvictsAt(es: seq<Event>, m: nat, tk: TaskKey) {
    m < |es| && Evicts(Exec(es[..m]), es[m], tk)
  }

  /** The publication at `i` admitted this identity, and nothing has evicted it before point `j`. */
  ghost predicate AdmittedBy(es: seq<Event>, i: nat, j: nat, tk: TaskKey) {
    && i < j <= |es| && AnsweredNew(es, i) && Names(es[i], tk.source, tk.dest, tk.task)
    && forall m :: i < m < j ==> !EvictsAt(es, m, tk)
  }

  // ---------- The table, one event at a time ----------

  ghost predicate Admits(s: System, e: Event, tk: TaskKey) {
    && e.TaskPublished? && Enabled(s, e) && PublishHandler(s.relay, e).1.New?
    && Names(e, tk.source, tk.dest, tk.task)
  }

  function RecordOf(e: Event): TaskRecord
    requires e.TaskPublished?
  {
    TaskRecord(CanonicalIdentity(e.task), Receipt(e.frameId, e.nowMs))
  }

  lemma NewAnswer(s: System, e: Event)
    requires SysInv(s) && e.TaskPublished? && Enabled(s, e) && PublishHandler(s.relay, e).1.New?
    ensures var l, tk := s.relay.ledger, TaskKey(e.source, e.dest, Trim(e.taskId));
            && tk !in l.tasks && |Owned(l)| < MAX_TRACKED_FRAMES
            && Next(s, e).relay.ledger.tasks == RoomFor(l)[tk := RecordOf(e)]
  {
    hide LedgerInv, Owned, Window, Trim, Deliver, RoomFor;
  }

  ghost predicate EvictedFirst(l: Ledger, tk: TaskKey) {
    Evictable(l) != [] && Evictable(l)[0] == tk
  }

  lemma RoomKeeps(l: Ledger, tk: TaskKey)
    requires LedgerInv(l) && |Owned(l)| < MAX_TRACKED_FRAMES
    ensures tk in RoomFor(l) <==> tk in l.tasks && !(|l.tasks| == MAX_RETAINED_PUBLISHED_TASKS && EvictedFirst(l, tk))
    ensures tk in RoomFor(l) ==> RoomFor(l)[tk] == l.tasks[tk]
  {
    hide FramesInv, EvictableOf;
    RoomForIsRoom(l);
  }

  lemma HeadIsAcknowledged(l: Ledger, tk: TaskKey)
    requires LedgerInv(l) && EvictedFirst(l, tk)
    ensures tk in l.tasks && TaskFrame(tk, l.tasks[tk]) in l.entries && l.entries[TaskFrame(tk, l.tasks[tk])].fate.Acknowledged?
  {
    hide FramesInv, EvictableOf;
    EvictableExact(l, tk);
  }

  lemma NotPublished(s: System, e: Event)
    requires !(e.TaskPublished? && Enabled(s, e) && PublishHandler(s.relay, e).1.New?)
    ensures Next(s, e).relay.ledger.tasks == s.relay.ledger.tasks
  {
    hide Owned, Window, Trim, Waiting, Mailbox, IsPending, Admissible, Deliver, RoomFor;
  }

  /** One event adds the identity it is answered New for, takes out the one it evicts, and keeps every other record. */
  lemma TableStep(s: System, e: Event, tk: TaskKey)
    requires SysInv(s)
    ensures var l, m := s.relay.ledger, Next(s, e).relay.ledger;
            && (tk in m.tasks <==> (tk in l.tasks && !Evicts(s, e, tk)) || Admits(s, e, tk))
            && (Admits(s, e, tk) ==> tk !in l.tasks && tk in m.tasks && m.tasks[tk] == RecordOf(e))
            && (tk in l.tasks && tk in m.tasks ==> m.tasks[tk] == l.tasks[tk])
  {
    hide FramesInv, TasksInv, Owned, EvictableOf, Trim, PublishHandler, Next, Enabled, PublisherOk, HeldKeys, RoomFor;
    var l := s.relay.ledger;
    if e.TaskPublished? && Enabled(s, e) && PublishHandler(s.relay, e).1.New? {
      NewAnswer(s, e);
      RoomKeeps(l, tk);
      if EvictedFirst(l, tk) {
        HeadIsAcknowledged(l, tk);
      }
    } else {
      NotPublished(s, e);
    }
  }

  // ---------- The table, over every run ----------

  lemma RunTable(es: seq<Event>, j: nat, tk: TaskKey)
    requires j < |es|
    ensures var l, m := LedgerAt(es, j), LedgerAt(es, j + 1);
            var admits := AnsweredNew(es, j) && Names(es[j], tk.source, tk.dest, tk.task);
            && (tk in m.tasks <==> (tk in l.tasks && !EvictsAt(es, j, tk)) || admits)
            && (admits ==> tk !in l.tasks && tk in m.tasks && m.tasks[tk] == RecordOf(es[j]))
            && (tk in l.tasks && tk in m.tasks ==> m.tasks[tk] == l.tasks[tk])
  {
    hide SysInv, Next, Exec, PublishHandler, Enabled, Evicts, Names;
    ExecNext(es, j);
    ReachableInv(es[..j]);
    TableStep(Exec(es[..j]), es[j], tk);
  }

  lemma AdmittedPublishes(es: seq<Event>, i: nat, j: nat, tk: TaskKey)
    requires AdmittedBy(es, i, j, tk)
    ensures i < |es| && es[i].TaskPublished?
  {
  }

  /** The retained identities at point `j` are those admitted before it and not evicted since, each under its own admission. */
  lemma {:induction false} TableIsWhatWasAdmitted(es: seq<Event>, j: nat, tk: TaskKey)
    requires j <= |es|
    ensures tk in LedgerAt(es, j).tasks ==> exists i: nat :: AdmittedBy(es, i, j, tk)
    ensures forall i: nat :: AdmittedBy(es, i, j, tk) ==> es[i].TaskPublished? && tk in LedgerAt(es, j).tasks && LedgerAt(es, j).tasks[tk] == RecordOf(es[i])
  {
    hide AnsweredNew, EvictsAt, Names;
    if j == 0 {
      assert LedgerAt(es, 0) == Empty;
    } else {
      hide Exec;
      TableIsWhatWasAdmitted(es, j - 1, tk);
      RunTable(es, j - 1, tk);
      if tk in LedgerAt(es, j).tasks {
        if AnsweredNew(es, j - 1) && Names(es[j - 1], tk.source, tk.dest, tk.task) {
          assert AdmittedBy(es, j - 1, j, tk);
        } else {
          var i: nat :| AdmittedBy(es, i, j - 1, tk);
          assert AdmittedBy(es, i, j, tk);
        }
      }
      forall i: nat | AdmittedBy(es, i, j, tk)
        ensures es[i].TaskPublished? && tk in LedgerAt(es, j).tasks && LedgerAt(es, j).tasks[tk] == RecordOf(es[i])
      {
        AdmittedPublishes(es, i, j, tk);
        if i < j - 1 {
          assert AdmittedBy(es, i, j - 1, tk);
        }
      }
    }
  }

  lemma AdmittedByOne(es: seq<Event>, a: nat, b: nat, j: nat, tk: TaskKey)
    requires AdmittedBy(es, a, j, tk) && AdmittedBy(es, b, j, tk)
    ensures a == b
  {
    hide AnsweredNew, EvictsAt, Names, Exec;
    if a != b {
      var first, second := if a < b then a else b, if a < b then b else a;
      assert AdmittedBy(es, first, second, tk);
      TableIsWhatWasAdmitted(es, second, tk);
      RunTable(es, second, tk);
    }
  }

  // ---------- The answers ----------

  /** The earlier publication at `i` has the identity of `e` and is still retained. */
  ghost predicate Precedes(es: seq<Event>, i: nat, e: Event)
    requires e.TaskPublished?
  {
    && AnsweredNew(es, i) && es[i].source == e.source && es[i].dest == e.dest && Trim(es[i].taskId) == Trim(e.taskId)
    && forall m :: i < m < |es| ==> !EvictsAt(es, m, TaskKey(e.source, e.dest, Trim(e.taskId)))
  }

  /** Equal tasks, up to the metadata entry the relay projects. */
  ghost predicate SameTask(a: TaskEnvelope, b: TaskEnvelope) {
    && a.body == b.body
    && (forall key :: key != "keryx.authenticated_source_protocol_features" ==> (key in a.metadata <==> key in b.metadata))
    && (forall key :: key != "keryx.authenticated_source_protocol_features" && key in a.metadata && key in b.metadata ==>
          a.metadata[key] == b.metadata[key])
  }

  lemma PrecedesIsAdmitted(es: seq<Event>, i: nat, e: Event)
    requires e.TaskPublished?
    ensures Precedes(es, i, e) <==> AdmittedBy(es, i, |es|, TaskKey(e.source, e.dest, Trim(e.taskId)))
  {
    hide Exec, Trim, EvictsAt;
  }

  /** An admitted identity stays in the table under the receipt of its own publication. */
  lemma PrecedingRecord(es: seq<Event>, i: nat, e: Event)
    requires e.TaskPublished? && Precedes(es, i, e)
    ensures i < |es| && es[i].TaskPublished?
    ensures var l, tk := Exec(es).relay.ledger, TaskKey(e.source, e.dest, Trim(e.taskId));
            tk in l.tasks && l.tasks[tk] == RecordOf(es[i])
  {
    hide Exec, Trim, AdmittedBy, Precedes;
    PrecedesIsAdmitted(es, i, e);
    AdmittedPublishes(es, i, |es|, TaskKey(e.source, e.dest, Trim(e.taskId)));
    TableIsWhatWasAdmitted(es, |es|, TaskKey(e.source, e.dest, Trim(e.taskId)));
    assert es[..|es|] == es;
  }

  /**
   A republication, in every run: when an earlier publication of the same source, destination and
   trimmed task id was admitted and not evicted since, the answer is its receipt if the tasks are the
   same and a conflict if not, and the relay does not change.
   */
  lemma RepublicationAnswer(es: seq<Event>, i: nat, e: Event)
    requires e.TaskPublished? && Enabled(Exec(es), e) && Precedes(es, i, e)
    ensures i < |es| && es[i].TaskPublished?
    ensures Answer(es, e) == if SameTask(es[i].task, e.task) then Retry(Receipt(es[i].frameId, es[i].nowMs)) else Conflict
    ensures Next(Exec(es), e).relay == Exec(es).relay
  {
    hide Exec, Trim, Precedes, Evictable, Owned, RoomFor, Admit, SameTask, CanonicalIdentity;
    PrecedingRecord(es, i, e);
    AdmissionExact(es, e);
    SameTaskIsIdentity(es[i].task, e.task);
  }

  /** There is only one such publication. */
  lemma PrecedesOne(es: seq<Event>, i: nat, j: nat, e: Event)
    requires e.TaskPublished? && Precedes(es, i, e) && Precedes(es, j, e)
    ensures i == j
  {
    hide Exec, Trim, AdmittedBy, Precedes;
    PrecedesIsAdmitted(es, i, e);
    PrecedesIsAdmitted(es, j, e);
    AdmittedByOne(es, i, j, |es|, TaskKey(e.source, e.dest, Trim(e.taskId)));
  }

  /**
   A first publication, in every run: without such an earlier one the answer is a refusal, with
   nothing changed, exactly when 8192 frames are pending, and otherwise an admission under the
   publication's own frame id.
   */
  lemma FirstPublicationAnswer(es: seq<Event>, e: Event)
    requires e.TaskPublished? && Enabled(Exec(es), e) && forall i: nat :: !Precedes(es, i, e)
    ensures if |Owned(Exec(es).relay.ledger)| >= 8192
            then Answer(es, e) == PublishCapacity && Next(Exec(es), e).relay == Exec(es).relay
            else Answer(es, e).New? && Answer(es, e).receipt == Receipt(e.frameId, e.nowMs) && Accepted(Answer(es, e).delivery)
  {
    hide Exec, Trim, AdmittedBy, Precedes, Evictable, Owned, RoomFor, Admit, CanonicalIdentity;
    var tk := TaskKey(e.source, e.dest, Trim(e.taskId));
    AdmissionExact(es, e);
    TableIsWhatWasAdmitted(es, |es|, tk);
    assert es[..|es|] == es;
    if tk in LedgerAt(es, |es|).tasks {
      var i: nat :| AdmittedBy(es, i, |es|, tk);
      PrecedesIsAdmitted(es, i, e);
    }
  }

  /** So, in every run, retries and conflicts are exactly the answers to a repeated identity. */
  lemma RepeatedIffPreceded(es: seq<Event>, e: Event)
    requires e.TaskPublished? && Enabled(Exec(es), e)
    ensures Answer(es, e).Retry? || Answer(es, e).Conflict? <==> exists i: nat :: Precedes(es, i, e)
  {
    hide Exec, Precedes, Answer, SameTask, Owned, Next, Enabled;
    if i: nat :| Precedes(es, i, e) {
      RepublicationAnswer(es, i, e);
    } else {
      FirstPublicationAnswer(es, e);
    }
  }

  lemma SameTaskIsIdentity(a: TaskEnvelope, b: TaskEnvelope)
    ensures SameTask(a, b) <==> CanonicalIdentity(a) == CanonicalIdentity(b)
  {
    hide CanonicalIdentity;
    IdentityIgnoresProjection(a, b);
  }

  /** Two pending frames never stem from publications of the same source, destination and trimmed task id. */
  lemma OnePendingPublication(es: seq<Event>, i: nat, j: nat)
    requires AnsweredNew(es, i) && AnsweredNew(es, j)
    requires es[i].source == es[j].source && es[i].dest == es[j].dest && Trim(es[i].taskId) == Trim(es[j].taskId)
    requires IsPending(Exec(es).relay.ledger, FrameKey(es[i].dest, es[i].frameId))
    requires IsPending(Exec(es).relay.ledger, FrameKey(es[j].dest, es[j].frameId))
    ensures i == j
  {
    hide Exec, Trim, PublishHandler;
    PublicationRoute(es, i);
    PublicationRoute(es, j);
    OneFramePerTask(es, FrameKey(es[i].dest, es[i].frameId), FrameKey(es[j].dest, es[j].frameId));
    AcceptedOnce(es, i, j, FrameKey(es[i].dest, es[i].frameId));
  }

  lemma PublicationRoute(es: seq<Event>, i: nat)
    requires AnsweredNew(es, i)
    ensures var k, l := FrameKey(es[i].dest, es[i].frameId), Exec(es).relay.ledger;
            AcceptedAt(es, i, k) && k in l.entries && l.entries[k].route == ForTask(TaskKeyOf(es[i]))
  {
    hide Exec, Trim, PublishHandler, SysInv;
    ReachableInv(es[..i]);
    ExecNext(es, i);
    TaskAccepted(Exec(es[..i]), es[i]);
    FateIsFinal(es, i + 1, |es|, FrameKey(es[i].dest, es[i].frameId));
    assert es[..|es|] == es;
  }

  // ---------- What the frame carries ----------

  /** The frame of a publication: one task payload, the caller's task with the projected features, between its two nodes. */
  ghost predicate CarriesTask(f: RelayFrame, e: Event)
    requires e.TaskPublished?
  {
    && f.frameId == e.frameId && f.source == e.source && f.destination == e.dest
    && f.task.Some? && f.task.value.body == e.task.body
    && f.task.value.metadata.Keys == e.task.metadata.Keys + {"keryx.authenticated_source_protocol_features"}
    && (forall key :: key in e.task.metadata && key != "keryx.authenticated_source_protocol_features" ==>
          f.task.value.metadata[key] == e.task.metadata[key])
    && f.task.value.metadata["keryx.authenticated_source_protocol_features"] == e.features
    && f.result.None? && f.bindV1.None? && f.challengeV1.None? && f.bindV2.None? && f.challengeV2.None? && f.fleet.None?
  }

  /** An admitted publication puts exactly that frame at the back of its destination's mailbox, in every run. */
  lemma PublicationIsMailboxed(es: seq<Event>, e: Event)
    requires e.TaskPublished? && Enabled(Exec(es), e) && Answer(es, e).New?
    ensures var before, after := Exec(es).relay.ledger, Next(Exec(es), e).relay.ledger;
            var box := Mailbox(after, e.dest);
            && box != [] && CarriesTask(box[|box| - 1], e) && box[..|box| - 1] == Mailbox(before, e.dest)
            && (forall d :: d != e.dest ==> Mailbox(after, d) == Mailbox(before, d))
    ensures var s := Exec(es).relay;
            && Answer(es, e).delivery == (if e.dest in s.connected && HasRoom(s.connected[e.dest].stream) then Delivered else Mailboxed)
            && Next(Exec(es), e).relay.registered == s.registered + {e.dest}
  {
    hide Exec, Trim, FramesInv, TasksInv, MailboxOf, Next, PublishHandler, Enabled;
    ReachableInv(es);
    var s := Exec(es);
    NewDelivery(s, e);
    TaskAccepted(s, e);
    var l, k, f := s.relay.ledger, FrameKey(e.dest, e.frameId), TaskFrameOf(e);
    assert CarriesTask(f, e);
    AcceptedMailbox(l, Next(s, e).relay.ledger, k, f, Next(s, e).relay.ledger.entries[k].route);
  }

  lemma NewDelivery(s: System, e: Event)
    requires e.TaskPublished? && Enabled(s, e) && PublishHandler(s.relay, e).1.New?
    ensures PublishHandler(s.relay, e).1.delivery
         == if e.dest in s.relay.connected && HasRoom(s.relay.connected[e.dest].stream) then Delivered else Mailboxed
    ensures Next(s, e).relay.registered == s.relay.registered + {e.dest}
  {
    hide Owned, Window, Trim, Deliver, RoomFor;
    DeliverQueues(s.relay.connected, e.dest, TaskFrameOf(e));
    DeliverIsOneOfTwo(s.relay.connected, e.dest, TaskFrameOf(e));
  }

  lemma DeliverIsOneOfTwo(connected: map<string, Connection>, target: string, f: RelayFrame)
    ensures Deliver(connected, target, f).1 in {Delivered, Mailboxed}
  {
  }

  /** A frame newly on the ledger is at the back of its mailbox. */
  lemma AcceptedMailbox(l: Ledger, m: Ledger, k: FrameKey, f: RelayFrame, route: Route)
    requires FramesInv(l) && k !in l.entries && m.order == l.order + [k] && m.entries == l.entries[k := Entry(f, route, Pending)]
    ensures Mailbox(m, k.dest) == Mailbox(l, k.dest) + [f]
    ensures forall d :: d != k.dest ==> Mailbox(m, d) == Mailbox(l, d)
  {
    hide MailboxOf, EntriesInv, AcksInv;
    AcceptProjects(l, k, f, route);
    forall d ensures Mailbox(m, d) == Mailbox(Accept(l, k, f, route), d) {}
  }
}
