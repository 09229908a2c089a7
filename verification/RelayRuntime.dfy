/**
 The relay runtime as the source keeps it: ten collections updated in place under one lock. Every
 method is one critical section. `Valid` says that each collection is the projection of the ghost
 ledger it stands for, and every method is proved to make exactly the ledger step of `RelaySpec`.
 */
module RelayRuntime {
  import opened Basics
  import opened Text
  import opened RelayFrames
  import opened Ledger
  import opened TaskTable
  import opened MailboxDepth
  import Spec = RelaySpec
  import opened RelaySpec

  datatype PublishedTaskRecord = PublishedTaskRecord(envelope: TaskEnvelope, receipt: Receipt, acknowledged: bool)

  /** What the receiving half of a one-shot waiter observes. */
  datatype Signal = Awaiting | Fired(result: string) | SenderDropped

  ghost function SignalOf(fate: Fate): Signal {
    match fate
    case Pending => Awaiting
    case Acknowledged => Fired("")
    case Completed(result) => Fired(result)
    case Abandoned => SenderDropped
  }

  // ---------- Removing one mailbox copy by position ----------

  lemma {:induction false} KeepAll(s: seq<RelayFrame>, p: RelayFrame -> bool)
    requires forall i :: 0 <= i < |s| ==> p(s[i])
    ensures Keep(s, p) == s
  {
    if s != [] {
      KeepAll(s[..|s| - 1], p);
    }
  }

  lemma {:induction false} RemoveAtIsKeep(s: seq<RelayFrame>, i: nat, p: RelayFrame -> bool)
    requires i < |s| && !p(s[i])
    requires forall j :: 0 <= j < |s| && j != i ==> p(s[j])
    ensures Keep(s, p) == s[..i] + s[i + 1..]
  {
    var n := |s| - 1;
    if i == n {
      KeepAll(s[..n], p);
    } else {
      RemoveAtIsKeep(s[..n], i, p);
      assert s[..n][i + 1..] + [s[n]] == s[i + 1..];
    }
  }

  // ---------- What each collection stands for ----------

  function At(mailboxes: map<string, seq<RelayFrame>>, d: string): seq<RelayFrame> {
    if d in mailboxes then mailboxes[d] else []
  }

  ghost predicate QueuesMatch(l: Ledger, owned: set<FrameKey>, mailboxes: map<string, seq<RelayFrame>>,
                              acked: set<FrameKey>, ackOrder: seq<FrameKey>)
  {
    && owned == Owned(l)
    && (forall d :: At(mailboxes, d) == Mailbox(l, d))
    && ackOrder == Window(l)
    && (forall k :: k in acked <==> k in ackOrder)
  }

  /** The four waiter maps, by the key each waiter is filed under. */
  datatype Waiters = Waiters(ack: set<FrameKey>, bind: set<FrameKey>, challenge: set<FrameKey>, fleet: set<FrameKey>) {
    function Of(route: Route): set<FrameKey>
      requires !route.ForTask?
    {
      match route
      case ForAck => ack
      case ForBind => bind
      case ForChallenge => challenge
      case ForFleet => fleet
    }

    function Insert(route: Route, k: FrameKey): Waiters
      requires !route.ForTask?
    {
      match route
      case ForAck => this.(ack := ack + {k})
      case ForBind => this.(bind := bind + {k})
      case ForChallenge => this.(challenge := challenge + {k})
      case ForFleet => this.(fleet := fleet + {k})
    }

    function Remove(route: Route, k: FrameKey): Waiters
      requires !route.ForTask?
    {
      match route
      case ForAck => this.(ack := ack - {k})
      case ForBind => this.(bind := bind - {k})
      case ForChallenge => this.(challenge := challenge - {k})
      case ForFleet => this.(fleet := fleet - {k})
    }
  }

  ghost predicate WaitersMatch(l: Ledger, w: Waiters) {
    && w.ack == Waiting(l, ForAck) && w.bind == Waiting(l, ForBind)
    && w.challenge == Waiting(l, ForChallenge) && w.fleet == Waiting(l, ForFleet)
  }

  ghost predicate SignalsMatch(l: Ledger, signals: map<FrameKey, Signal>) {
    && (forall k :: k in signals <==> k in l.entries && !l.entries[k].route.ForTask?)
    && (forall k :: k in signals ==> signals[k] == SignalOf(l.entries[k].fate))
  }

  /** The identity table, its reverse index (a bijection) and its eviction queue stand for `l.tasks`. */
  ghost predicate TasksMatch(l: Ledger, table: map<TaskKey, PublishedTaskRecord>, index: map<FrameKey, TaskKey>, queue: seq<TaskKey>) {
    && table.Keys == l.tasks.Keys
    && (forall tk :: tk in l.tasks ==>
          && TaskFrame(tk, l.tasks[tk]) in l.entries
          && table[tk] == PublishedTaskRecord(l.tasks[tk].envelope, l.tasks[tk].receipt,
                                              l.entries[TaskFrame(tk, l.tasks[tk])].fate.Acknowledged?))
    && (forall tk :: tk in l.tasks ==>
          TaskFrame(tk, l.tasks[tk]) in index && index[TaskFrame(tk, l.tasks[tk])] == tk)
    && (forall k :: k in index ==> index[k] in l.tasks && TaskFrame(index[k], l.tasks[index[k]]) == k)
    && queue == Evictable(l)
  }

  // ---------- How the queues follow the ledger ----------

  lemma QueuesRegister(l: Ledger, owned: set<FrameKey>, mailboxes: map<string, seq<RelayFrame>>,
                       acked: set<FrameKey>, ackOrder: seq<FrameKey>, node: string)
    requires QueuesMatch(l, owned, mailboxes, acked, ackOrder)
    ensures QueuesMatch(l, owned, mailboxes[node := At(mailboxes, node)], acked, ackOrder)
  {
  }

  /** What a step may read off the queues: ownership, the window, and a mailbox no deeper than ownership. */
  lemma QueuesRead(l: Ledger, owned: set<FrameKey>, mailboxes: map<string, seq<RelayFrame>>,
                   acked: set<FrameKey>, ackOrder: seq<FrameKey>, d: string)
    requires FramesInv(l) && QueuesMatch(l, owned, mailboxes, acked, ackOrder)
    ensures owned == Owned(l) && At(mailboxes, d) == Mailbox(l, d)
    ensures forall k :: k in acked <==> k in Window(l)
    ensures |At(mailboxes, d)| <= |owned|
  {
    MailboxAtMostOwned(l, d);
  }

  lemma QueuesAccept(l: Ledger, owned: set<FrameKey>, mailboxes: map<string, seq<RelayFrame>>,
                     acked: set<FrameKey>, ackOrder: seq<FrameKey>, k: FrameKey, f: RelayFrame, route: Route)
    requires FramesInv(l) && k !in l.entries && QueuesMatch(l, owned, mailboxes, acked, ackOrder)
    ensures QueuesMatch(Accept(l, k, f, route), owned + {k}, mailboxes[k.dest := At(mailboxes, k.dest) + [f]], acked, ackOrder)
  {
    hide MailboxOf, AcksInv, EntriesInv;
    AcceptProjects(l, k, f, route);
  }

  /** `get_mut(d)` then `retain`. */
  function RetainAt(mailboxes: map<string, seq<RelayFrame>>, d: string, p: RelayFrame -> bool): map<string, seq<RelayFrame>> {
    if d in mailboxes then mailboxes[d := Keep(mailboxes[d], p)] else mailboxes
  }

  lemma QueuesSettle(l: Ledger, m: Ledger, owned: set<FrameKey>, mailboxes: map<string, seq<RelayFrame>>,
                     acked: set<FrameKey>, ackOrder: seq<FrameKey>, k: FrameKey)
    requires FramesInv(l) && Settles(l, m, k) && m.acks == l.acks && QueuesMatch(l, owned, mailboxes, acked, ackOrder)
    ensures QueuesMatch(m, owned - {k}, RetainAt(mailboxes, k.dest, OtherId(k.id)), acked, ackOrder)
  {
    SettleProjects(l, m, k);
    SettleMailbox(l, m, k);
  }

  lemma WindowPush(l: Ledger, k: FrameKey)
    requires k in l.entries
    ensures Window(Acknowledge(l, k)) == LastN(Window(l) + [k], MAX_RECENT_ACKNOWLEDGEMENTS)
  {
  }

  lemma QueuesAcknowledge(l: Ledger, owned: set<FrameKey>, mailboxes: map<string, seq<RelayFrame>>,
                          acked: set<FrameKey>, ackOrder: seq<FrameKey>, k: FrameKey,
                          acked': set<FrameKey>, ackOrder': seq<FrameKey>)
    requires FramesInv(l) && IsPending(l, k) && QueuesMatch(l, owned, mailboxes, acked, ackOrder)
    requires ackOrder' == LastN(ackOrder + [k], MAX_RECENT_ACKNOWLEDGEMENTS)
    requires forall j :: j in acked' <==> j in ackOrder'
    ensures QueuesMatch(Acknowledge(l, k), owned - {k}, RetainAt(mailboxes, k.dest, OtherId(k.id)), acked', ackOrder')
  {
    var m := Acknowledge(l, k);
    WindowPush(l, k);
    SettleProjects(l, m, k);
    SettleMailbox(l, m, k);
  }

  lemma QueuesAbandonOne(l: Ledger, owned: set<FrameKey>, mailboxes: map<string, seq<RelayFrame>>,
                         acked: set<FrameKey>, ackOrder: seq<FrameKey>, k: FrameKey)
    requires FramesInv(l) && QueuesMatch(l, owned, mailboxes, acked, ackOrder)
    ensures QueuesMatch(AbandonAll(l, {k}), owned - {k}, RetainAt(mailboxes, k.dest, OtherId(k.id)), acked, ackOrder)
  {
    hide MailboxOf, FramesInv;
    AbandonProjects(l, {k});
    AbandonOneMailbox(l, k);
  }

  lemma QueuesAbandonFleet(l: Ledger, owned: set<FrameKey>, mailboxes: map<string, seq<RelayFrame>>,
                           acked: set<FrameKey>, ackOrder: seq<FrameKey>, d: string)
    requires FramesInv(l) && QueuesMatch(l, owned, mailboxes, acked, ackOrder)
    ensures QueuesMatch(AbandonAll(l, FleetKeys(l, d)), owned - FleetKeys(l, d), RetainAt(mailboxes, d, NotFleet()), acked, ackOrder)
  {
    hide MailboxOf, FramesInv;
    AbandonProjects(l, FleetKeys(l, d));
    AbandonFleetMailbox(l, d);
  }

  // ---------- How waiters and signals follow the ledger ----------

  lemma WaitersAccept(l: Ledger, w: Waiters, k: FrameKey, f: RelayFrame, route: Route)
    requires k !in l.entries && WaitersMatch(l, w)
    ensures WaitersMatch(Accept(l, k, f, route), if route.ForTask? then w else w.Insert(route, k))
  {
  }

  lemma SignalsAccept(l: Ledger, signals: map<FrameKey, Signal>, k: FrameKey, f: RelayFrame, route: Route)
    requires k !in l.entries && SignalsMatch(l, signals)
    ensures SignalsMatch(Accept(l, k, f, route), if route.ForTask? then signals else signals[k := Awaiting])
  {
  }

  lemma WaitersRead(l: Ledger, w: Waiters, route: Route)
    requires WaitersMatch(l, w) && !route.ForTask?
    ensures w.Of(route) == Waiting(l, route) <= Owned(l)
  {
  }

  lemma CompleteSettles(l: Ledger, route: Route, k: FrameKey, result: string)
    requires k in Waiting(l, route)
    ensures k in l.entries && l.entries[k].route == route && Settles(l, Complete(l, k, result), k)
    ensures var m := Complete(l, k, result);
            m.entries[k].fate == Completed(result) && m.acks == l.acks && m.tasks == l.tasks
  {
  }

  lemma WaitersSettle(l: Ledger, m: Ledger, w: Waiters, k: FrameKey)
    requires Settles(l, m, k) && WaitersMatch(l, w)
    ensures WaitersMatch(m, if l.entries[k].route.ForTask? then w else w.Remove(l.entries[k].route, k))
  {
    SettleProjects(l, m, k);
  }

  lemma SignalsSettle(l: Ledger, m: Ledger, signals: map<FrameKey, Signal>, k: FrameKey)
    requires Settles(l, m, k) && SignalsMatch(l, signals)
    ensures SignalsMatch(m, if l.entries[k].route.ForTask? then signals else signals[k := SignalOf(m.entries[k].fate)])
  {
  }

  /** The signals after the senders of `ks` are dropped. */
  function Drop(signals: map<FrameKey, Signal>, ks: set<FrameKey>): map<FrameKey, Signal> {
    map k | k in signals :: if k in ks && signals[k].Awaiting? then SenderDropped else signals[k]
  }

  lemma WaitersAbandon(l: Ledger, w: Waiters, ks: set<FrameKey>)
    requires WaitersMatch(l, w)
    ensures WaitersMatch(AbandonAll(l, ks), Waiters(w.ack - ks, w.bind - ks, w.challenge - ks, w.fleet - ks))
  {
  }

  /** A Fleet key waits in no other map, so purging it touches the Fleet map alone. */
  lemma WaitersAbandonFleet(l: Ledger, w: Waiters, d: string)
    requires WaitersMatch(l, w)
    ensures WaitersMatch(AbandonAll(l, FleetKeys(l, d)), w.(fleet := w.fleet - FleetKeys(l, d)))
  {
  }

  lemma SignalsAbandon(l: Ledger, signals: map<FrameKey, Signal>, ks: set<FrameKey>)
    requires SignalsMatch(l, signals)
    ensures SignalsMatch(AbandonAll(l, ks), Drop(signals, ks))
  {
  }

  // ---------- How the identity table follows the ledger ----------

  /** Only an acknowledgement of a task frame touches the table. */
  lemma TasksUntouched(l: Ledger, m: Ledger, table: map<TaskKey, PublishedTaskRecord>, index: map<FrameKey, TaskKey>, queue: seq<TaskKey>)
    requires LedgerInv(l) && TasksMatch(l, table, index, queue) && m.tasks == l.tasks && Evictable(m) == Evictable(l)
    requires forall k :: k in l.entries ==> k in m.entries
    requires forall k :: k in l.entries && l.entries[k].route.ForTask? ==> m.entries[k] == l.entries[k]
    ensures TasksMatch(m, table, index, queue)
  {
    hide EvictableOf, FramesInv;
  }

  lemma SameAcksSameQueue(l: Ledger, m: Ledger)
    requires m.acks == l.acks && m.tasks == l.tasks
    requires forall k :: k in l.entries ==> k in m.entries && m.entries[k].route == l.entries[k].route
    requires forall k :: k in l.acks ==> k in l.entries
    ensures Evictable(m) == Evictable(l)
  {
    EvictableFrame(l.acks, l.entries, l.tasks, m.entries, m.tasks);
  }

  lemma TasksAccept(l: Ledger, table: map<TaskKey, PublishedTaskRecord>, index: map<FrameKey, TaskKey>, queue: seq<TaskKey>,
                    k: FrameKey, f: RelayFrame, route: Route)
    requires LedgerInv(l) && k !in l.entries && TasksMatch(l, table, index, queue)
    ensures TasksMatch(Accept(l, k, f, route), table, index, queue)
  {
    SameAcksSameQueue(l, Accept(l, k, f, route));
    TasksUntouched(l, Accept(l, k, f, route), table, index, queue);
  }

  lemma TasksSettle(l: Ledger, m: Ledger, table: map<TaskKey, PublishedTaskRecord>, index: map<FrameKey, TaskKey>,
                    queue: seq<TaskKey>, k: FrameKey)
    requires LedgerInv(l) && Settles(l, m, k) && !l.entries[k].route.ForTask? && TasksMatch(l, table, index, queue)
    requires m.tasks == l.tasks && m.acks == l.acks
    ensures TasksMatch(m, table, index, queue)
  {
    SameAcksSameQueue(l, m);
    TasksUntouched(l, m, table, index, queue);
  }

  lemma TasksAbandon(l: Ledger, table: map<TaskKey, PublishedTaskRecord>, index: map<FrameKey, TaskKey>,
                     queue: seq<TaskKey>, ks: set<FrameKey>)
    requires LedgerInv(l) && TasksMatch(l, table, index, queue)
    requires forall k :: k in ks && IsPending(l, k) ==> !l.entries[k].route.ForTask?
    ensures TasksMatch(AbandonAll(l, ks), table, index, queue)
  {
    SameAcksSameQueue(l, AbandonAll(l, ks));
    TasksUntouched(l, AbandonAll(l, ks), table, index, queue);
  }

  lemma AckReads(l: Ledger, w: Waiters, k: FrameKey)
    requires FramesInv(l) && WaitersMatch(l, w)
    ensures k in w.bind || k in w.challenge || k in w.fleet <==> IsPending(l, k) && Typed(l.entries[k].route)
    ensures k in Owned(l) <==> IsPending(l, k)
  {
  }

  /** A pending key is outside the acknowledgement window, which is bounded and repeats nothing. */
  lemma AckWindow(l: Ledger, owned: set<FrameKey>, mailboxes: map<string, seq<RelayFrame>>,
                  acked: set<FrameKey>, ackOrder: seq<FrameKey>, k: FrameKey)
    requires FramesInv(l) && IsPending(l, k) && QueuesMatch(l, owned, mailboxes, acked, ackOrder)
    ensures k !in acked && NoDup(ackOrder) && |ackOrder| <= MAX_RECENT_ACKNOWLEDGEMENTS
    ensures forall j :: j in acked <==> j in ackOrder
  {
  }

  lemma WaitingIsUnacknowledged(l: Ledger, owned: set<FrameKey>, mailboxes: map<string, seq<RelayFrame>>,
                                acked: set<FrameKey>, ackOrder: seq<FrameKey>, w: Waiters, k: FrameKey)
    requires FramesInv(l) && QueuesMatch(l, owned, mailboxes, acked, ackOrder) && WaitersMatch(l, w) && k in acked
    ensures k !in w.ack
  {
    hide FramesInv, QueuesMatch;
    if k in w.ack {
      AckWindow(l, owned, mailboxes, acked, ackOrder, k);
    }
  }

  ghost predicate DistinctIds(box: seq<RelayFrame>) {
    forall i, j :: 0 <= i < j < |box| ==> Trim(box[i].frameId) != Trim(box[j].frameId)
  }

  lemma MailboxIds(l: Ledger, owned: set<FrameKey>, mailboxes: map<string, seq<RelayFrame>>,
                   acked: set<FrameKey>, ackOrder: seq<FrameKey>, d: string)
    requires FramesInv(l) && QueuesMatch(l, owned, mailboxes, acked, ackOrder)
    ensures DistinctIds(At(mailboxes, d))
  {
    var box := At(mailboxes, d);
    forall i, j | 0 <= i < j < |box| ensures Trim(box[i].frameId) != Trim(box[j].frameId) {
      assert box == Mailbox(l, d);
      forall k | k in l.order ensures k in l.entries && EntryOk(k, l.entries[k]) {}
      MailboxDistinct(l.order, l.entries, d, i, j);
    }
  }

  lemma WaitersAcknowledge(l: Ledger, w: Waiters, signals: map<FrameKey, Signal>, k: FrameKey)
    requires IsPending(l, k) && !Typed(l.entries[k].route) && WaitersMatch(l, w) && SignalsMatch(l, signals)
    ensures k in w.ack <==> l.entries[k].route == ForAck
    ensures WaitersMatch(Acknowledge(l, k), if k in w.ack then w.Remove(ForAck, k) else w)
    ensures SignalsMatch(Acknowledge(l, k), if k in w.ack then signals[k := Fired("")] else signals)
  {
    WaitersSettle(l, Acknowledge(l, k), w, k);
    SignalsSettle(l, Acknowledge(l, k), signals, k);
  }

  /** Acknowledging a frame flips exactly the record the index names for it, and queues that identity. */
  lemma TasksAcknowledge(l: Ledger, table: map<TaskKey, PublishedTaskRecord>, index: map<FrameKey, TaskKey>,
                         queue: seq<TaskKey>, k: FrameKey)
    requires LedgerInv(l) && IsPending(l, k) && TasksMatch(l, table, index, queue)
    ensures k in index <==> l.entries[k].route.ForTask?
    ensures k in index ==>
              && index[k] in table && !table[index[k]].acknowledged
              && TasksMatch(Acknowledge(l, k), table[index[k] := table[index[k]].(acknowledged := true)], index, queue + [index[k]])
    ensures k !in index ==> TasksMatch(Acknowledge(l, k), table, index, queue)
  {
    AcknowledgeEvictable(l, k);
    if l.entries[k].route.ForTask? {
      assert Retained(k, l.entries, l.tasks);
      assert index[k] == l.entries[k].route.task;
      TasksAcknowledgeTask(l, table, index, queue, k);
    } else {
      TasksUntouched(l, Acknowledge(l, k), table, index, queue);
    }
  }

  lemma TasksAcknowledgeTask(l: Ledger, table: map<TaskKey, PublishedTaskRecord>, index: map<FrameKey, TaskKey>,
                             queue: seq<TaskKey>, k: FrameKey)
    requires LedgerInv(l) && IsPending(l, k) && TasksMatch(l, table, index, queue) && k in index
    requires Evictable(Acknowledge(l, k)) == queue + [index[k]]
    ensures TasksMatch(Acknowledge(l, k), table[index[k] := table[index[k]].(acknowledged := true)], index, queue + [index[k]])
  {
    hide EvictableOf, FramesInv;
    var m := Acknowledge(l, k);
    forall tk | tk in m.tasks && tk != index[k] ensures m.entries[TaskFrame(tk, m.tasks[tk])] == l.entries[TaskFrame(tk, l.tasks[tk])] {
      assert TaskFrame(tk, l.tasks[tk]) != k;
    }
  }

  /** The reverse index is a bijection: every record is found under its frame, and under no other. */
  lemma IndexIsBijection(l: Ledger, table: map<TaskKey, PublishedTaskRecord>, index: map<FrameKey, TaskKey>, queue: seq<TaskKey>)
    requires TasksMatch(l, table, index, queue)
    ensures forall k, tk :: (k in index && index[k] == tk) <==> (tk in table && k == FrameKey(tk.dest, table[tk].receipt.frameId))
  {
    hide Evictable;
  }

  lemma TasksRead(l: Ledger, table: map<TaskKey, PublishedTaskRecord>, index: map<FrameKey, TaskKey>, queue: seq<TaskKey>, tk: TaskKey)
    requires TasksMatch(l, table, index, queue)
    ensures tk in table <==> tk in l.tasks
    ensures tk in table ==> table[tk].envelope == l.tasks[tk].envelope && table[tk].receipt == l.tasks[tk].receipt
  {
  }

  lemma TasksSize(l: Ledger, table: map<TaskKey, PublishedTaskRecord>, index: map<FrameKey, TaskKey>, queue: seq<TaskKey>)
    requires TasksMatch(l, table, index, queue)
    ensures |table| == |l.tasks| && queue == Evictable(l)
  {
  }

  lemma TasksEvict(l: Ledger, table: map<TaskKey, PublishedTaskRecord>, index: map<FrameKey, TaskKey>, queue: seq<TaskKey>)
    requires LedgerInv(l) && TasksMatch(l, table, index, queue) && queue != []
    ensures var tk := queue[0];
            && tk in table && tk in l.tasks
            && TasksMatch(l.(tasks := l.tasks - {tk}), table - {tk},
                          index - {FrameKey(tk.dest, table[tk].receipt.frameId)}, queue[1..])
  {
    var tk := queue[0];
    EvictableExact(l, tk);
    EvictHead(l.acks, l.entries, l.tasks);
    TasksEvictIndex(l, table, index, queue, tk);
  }

  lemma TasksEvictIndex(l: Ledger, table: map<TaskKey, PublishedTaskRecord>, index: map<FrameKey, TaskKey>, queue: seq<TaskKey>, tk: TaskKey)
    requires TasksMatch(l, table, index, queue) && queue != [] && tk == queue[0] && tk in l.tasks
    requires Evictable(l.(tasks := l.tasks - {tk})) == queue[1..]
    ensures TasksMatch(l.(tasks := l.tasks - {tk}), table - {tk}, index - {FrameKey(tk.dest, table[tk].receipt.frameId)}, queue[1..])
  {
  }

  /** Ownership, mailboxes, waiters and signals do not look at the identity table. */
  lemma FramesIgnoreTasks(l: Ledger, m: Ledger, owned: set<FrameKey>, mailboxes: map<string, seq<RelayFrame>>,
                          acked: set<FrameKey>, ackOrder: seq<FrameKey>, w: Waiters, signals: map<FrameKey, Signal>)
    requires m == l.(tasks := m.tasks) && FramesInv(l)
    requires QueuesMatch(l, owned, mailboxes, acked, ackOrder) && WaitersMatch(l, w) && SignalsMatch(l, signals)
    ensures FramesInv(m) && Owned(m) == Owned(l) && Window(m) == Window(l)
    ensures QueuesMatch(m, owned, mailboxes, acked, ackOrder) && WaitersMatch(m, w) && SignalsMatch(m, signals)
  {
  }

  lemma FreshIsNew(l: Ledger, k: FrameKey)
    requires Fresh(l, k) && k !in Owned(l) && k !in Window(l)
    ensures k !in l.entries
  {
  }

  lemma DeliverAccepts(connected: map<string, Connection>, target: string, f: RelayFrame)
    ensures Deliver(connected, target, f).1.Delivered? || Deliver(connected, target, f).1.Mailboxed?
  {
  }

  lemma TasksAdmit(l: Ledger, table: map<TaskKey, PublishedTaskRecord>, index: map<FrameKey, TaskKey>, queue: seq<TaskKey>,
                   tk: TaskKey, rec: TaskRecord, f: RelayFrame)
    requires LedgerInv(l) && TasksMatch(l.(tasks := RoomFor(l)), table, index, queue)
    requires tk !in l.tasks && TaskFrame(tk, rec) !in l.entries
    ensures TasksMatch(Admit(l, tk, rec, f), table[tk := PublishedTaskRecord(rec.envelope, rec.receipt, false)],
                       index[TaskFrame(tk, rec) := tk], queue)
  {
    hide TasksMatch, OrderInv, EntriesInv;
    var m := Admit(l, tk, rec, f);
    var mid := l.(tasks := RoomFor(l));
    TasksSize(mid, table, index, queue);
    EvictableFrame(l.acks, l.entries, RoomFor(l), m.entries, m.tasks);
    TasksAdmitIndex(mid, m, table, index, queue, tk, rec, f);
  }

  lemma TasksAdmitIndex(mid: Ledger, m: Ledger, table: map<TaskKey, PublishedTaskRecord>, index: map<FrameKey, TaskKey>, queue: seq<TaskKey>,
                        tk: TaskKey, rec: TaskRecord, f: RelayFrame)
    requires TasksMatch(mid, table, index, queue) && Evictable(m) == queue
    requires tk !in mid.tasks && TaskFrame(tk, rec) !in mid.entries
    requires m == Accept(mid.(tasks := mid.tasks[tk := rec]), TaskFrame(tk, rec), f, ForTask(tk))
    ensures TasksMatch(m, table[tk := PublishedTaskRecord(rec.envelope, rec.receipt, false)], index[TaskFrame(tk, rec) := tk], queue)
  {
  }

  lemma FleetReads(l: Ledger, w: Waiters, d: string)
    requires WaitersMatch(l, w)
    ensures (set k | k in w.fleet && k.dest == d) == FleetKeys(l, d)
    ensures forall k :: k in FleetKeys(l, d) ==>
              IsPending(l, k) && l.entries[k].route == ForFleet
  {
  }

  /** No mailboxed frame is in the acknowledgement window. */
  lemma MailboxUnacknowledged(l: Ledger, owned: set<FrameKey>, mailboxes: map<string, seq<RelayFrame>>,
                              acked: set<FrameKey>, ackOrder: seq<FrameKey>, d: string)
    requires FramesInv(l) && QueuesMatch(l, owned, mailboxes, acked, ackOrder)
    ensures At(mailboxes, d) == Mailbox(l, d)
    ensures forall i :: 0 <= i < |At(mailboxes, d)| ==> FrameKey(d, Trim(At(mailboxes, d)[i].frameId)) !in acked
  {
    var box := At(mailboxes, d);
    assert box == Mailbox(l, d);
    forall i | 0 <= i < |box| ensures FrameKey(d, Trim(box[i].frameId)) !in acked {
      MailboxedIsPending(l, d, i);
      AckWindow(l, owned, mailboxes, acked, ackOrder, FrameKey(d, Trim(box[i].frameId)));
    }
  }

  class RelayRuntime {
    var registered: set<string>
    var connectedNodes: map<string, Connection>
    var nextConnectionGeneration: nat
    var mailboxes: map<string, seq<RelayFrame>>
    var frameDestinations: set<FrameKey>
    var acknowledgedFrames: set<FrameKey>
    var acknowledgedFrameOrder: seq<FrameKey>
    var publishedTasks: map<TaskKey, PublishedTaskRecord>
    var publishedFrameIndex: map<FrameKey, TaskKey>
    var acknowledgedPublishedTaskOrder: seq<TaskKey>
    var waiters: Waiters
    var signals: map<FrameKey, Signal>

    ghost var ledger: Ledger

    ghost function View(): RelayState
      reads this
    {
      RelayState(ledger, registered, connectedNodes, nextConnectionGeneration)
    }

    ghost predicate QueuesValid()
      reads this
    {
      QueuesMatch(ledger, frameDestinations, mailboxes, acknowledgedFrames, acknowledgedFrameOrder)
    }

    ghost predicate WaitersValid()
      reads this
    {
      WaitersMatch(ledger, waiters) && SignalsMatch(ledger, signals)
    }

    ghost predicate TasksValid()
      reads this
    {
      TasksMatch(ledger, publishedTasks, publishedFrameIndex, acknowledgedPublishedTaskOrder)
    }

    ghost predicate Valid()
      reads this
    {
      LedgerInv(ledger) && QueuesValid() && WaitersValid() && TasksValid()
    }

    constructor ()
      ensures Valid() && View() == Initial
    {
      registered, connectedNodes, nextConnectionGeneration := {}, map[], 0;
      mailboxes, frameDestinations := map[], {};
      acknowledgedFrames, acknowledgedFrameOrder := {}, [];
      publishedTasks, publishedFrameIndex, acknowledgedPublishedTaskOrder := map[], map[], [];
      waiters, signals := Waiters({}, {}, {}, {}), map[];
      ledger := Empty;
    }

    method RegisterNode(node: string)
      requires Valid()
      modifies this
      ensures Valid() && View() == Spec.RegisterNode(old(View()), node)
      ensures registered == old(registered) + {node}
    {
      hide LedgerInv, QueuesMatch, WaitersMatch, SignalsMatch, TasksMatch;
      registered := registered + {node};
      QueuesRegister(ledger, frameDestinations, mailboxes, acknowledgedFrames, acknowledgedFrameOrder, node);
      mailboxes := mailboxes[node := At(mailboxes, node)];
    }

    /** `route_frame_locked`: take ownership, mailbox the frame, then try the live stream. */
    method RouteFrameLocked(target: string, f: RelayFrame, ghost route: Route) returns (delivery: FrameDelivery)
      requires FramesInv(ledger) && QueuesValid()
      requires Fresh(ledger, FrameKey(target, Trim(f.frameId)))
      requires ExactlyOnePayload(f) ==> PayloadFits(f, route)
      requires route.ForTask? ==> route.task.dest == target
      modifies this`registered, this`connectedNodes, this`mailboxes, this`frameDestinations, this`ledger
      ensures FramesInv(ledger) && QueuesValid()
      ensures (View(), delivery) == RouteLocked(old(View()), target, f, route)
    {
      hide FramesInv, QueuesMatch, ExactlyOnePayload, PayloadFits, Trim, Accept, Deliver, Owned, Window, MailboxOf, At;
      RouteLockedKeeps(View(), target, f, route);
      QueuesRead(ledger, frameDestinations, mailboxes, acknowledgedFrames, acknowledgedFrameOrder, target);
      if !ExactlyOnePayload(f) {
        return RejectedInvalid;
      }
      var id := Trim(f.frameId);
      if id == "" {
        return RejectedInvalid;
      }
      var key := FrameKey(target, id);
      if key in frameDestinations || key in acknowledgedFrames {
        return RejectedDuplicate;
      }
      if |frameDestinations| >= MAX_TRACKED_FRAMES || |At(mailboxes, target)| >= MAX_TRACKED_FRAMES {
        return RejectedCapacity;
      }
      FreshIsNew(ledger, key);
      QueuesAccept(ledger, frameDestinations, mailboxes, acknowledgedFrames, acknowledgedFrameOrder, key, f, route);
      ledger := Accept(ledger, key, f, route);
      frameDestinations := frameDestinations + {key};
      registered := registered + {target};
      mailboxes := mailboxes[target := At(mailboxes, target) + [f]];
      delivery := PushToStream(target, f);
    }

    /** Try the live stream; a closed receiver loses its connection. */
    method PushToStream(target: string, f: RelayFrame) returns (delivery: FrameDelivery)
      modifies this`connectedNodes
      ensures (connectedNodes, delivery) == Deliver(old(connectedNodes), target, f)
      ensures connectedNodes - {target} == old(connectedNodes) - {target}
    {
      if target !in connectedNodes {
        return Mailboxed;
      }
      var (stream, sent) := TrySend(connectedNodes[target].stream, f);
      match sent {
        case Sent =>
          connectedNodes := connectedNodes[target := connectedNodes[target].(stream := stream)];
          return Delivered;
        case Full =>
          return Mailboxed;
        case Closed =>
          connectedNodes := connectedNodes - {target};
          return Mailboxed;
      }
    }

    /** The four waiting routes: route the frame and install its waiter under the same lock. */
    method RouteWaiting(route: Route, target: string, f: RelayFrame) returns (delivery: FrameDelivery, waiting: bool)
      requires Valid() && !route.ForTask?
      requires Fresh(ledger, FrameKey(target, Trim(f.frameId)))
      modifies this
      ensures Valid()
      ensures (View(), delivery) == Spec.RouteWaiting(old(View()), route, target, f)
      ensures waiting <==> delivery.Delivered? || delivery.Mailboxed?
    {
      hide FramesInv, TasksInv, QueuesMatch, WaitersMatch, SignalsMatch, TasksMatch, PayloadFits, ExactlyOnePayload, Admissible, Trim, RouteLocked, Accept, Fresh;
      if !Admissible(route, target, f) {
        return RejectedInvalid, false;
      }
      AdmissibleFits(route, target, f);
      RouteWaitingKeeps(View(), route, target, f);
      RouteLockedCases(View(), target, f, route);
      ghost var l := ledger;
      delivery := RouteFrameLocked(target, f, route);
      waiting := delivery.Delivered? || delivery.Mailboxed?;
      if waiting {
        var key := FrameKey(target, Trim(f.frameId));
        WaitersAccept(l, waiters, key, f, route);
        SignalsAccept(l, signals, key, f, route);
        TasksAccept(l, publishedTasks, publishedFrameIndex, acknowledgedPublishedTaskOrder, key, f, route);
        waiters := waiters.Insert(route, key);
        signals := signals[key := Awaiting];
      }
    }

    /** The three typed completions. A waiter that is found always owns its frame, so the source's
        "waiter removed but frame not owned" branch is never taken. */
    method CompleteControl(route: Route, destination: string, frameId: string, result: string) returns (completion: ControlCompletion)
      requires Valid() && Typed(route)
      modifies this
      ensures Valid()
      ensures (View(), completion) == Spec.CompleteControl(old(View()), route, destination, frameId, result)
      ensures signals == if completion.CompletionAccepted? then old(signals)[FrameKey(Trim(destination), Trim(frameId)) := Fired(result)]
                         else old(signals)
    {
      hide FramesInv, TasksInv, QueuesMatch, WaitersMatch, SignalsMatch, TasksMatch, Trim, Waiting, Owned, Settles, Complete, RetainAt;
      var key := FrameKey(Trim(destination), Trim(frameId));
      if key.dest == "" || key.id == "" {
        return CompletionUnknownFrame;
      }
      CompleteControlKeeps(View(), route, destination, frameId, result);
      WaitersRead(ledger, waiters, route);
      if key !in waiters.Of(route) {
        return if SameIdElsewhere(waiters.Of(route), key.id) then CompletionWrongDestination else CompletionUnknownFrame;
      }
      CompleteSettles(ledger, route, key, result);
      ghost var l, m := ledger, Complete(ledger, key, result);
      assert key in frameDestinations by {
        QueuesRead(l, frameDestinations, mailboxes, acknowledgedFrames, acknowledgedFrameOrder, key.dest);
      }
      QueuesSettle(l, m, frameDestinations, mailboxes, acknowledgedFrames, acknowledgedFrameOrder, key);
      WaitersSettle(l, m, waiters, key);
      SignalsSettle(l, m, signals, key);
      TasksSettle(l, m, publishedTasks, publishedFrameIndex, acknowledgedPublishedTaskOrder, key);
      waiters := waiters.Remove(route, key);
      frameDestinations := frameDestinations - {key};
      mailboxes := RetainAt(mailboxes, key.dest, OtherId(key.id));
      signals := signals[key := Fired(result)];
      ledger := m;
      return CompletionAccepted;
    }

    /** Give up one publisher's frame. The caller never abandons a published task's frame. */
    method AbandonFrame(destination: string, frameId: string)
      requires Valid()
      requires var k := FrameKey(destination, frameId); IsPending(ledger, k) ==> !ledger.entries[k].route.ForTask?
      modifies this
      ensures Valid()
      ensures View() == Spec.AbandonFrame(old(View()), FrameKey(destination, frameId))
    {
      hide FramesInv, TasksInv, QueuesMatch, WaitersMatch, SignalsMatch, TasksMatch, AbandonAll, Drop, RetainAt;
      var key := FrameKey(destination, frameId);
      ghost var l := ledger;
      AbandonAllKeeps(l, {key});
      QueuesAbandonOne(l, frameDestinations, mailboxes, acknowledgedFrames, acknowledgedFrameOrder, key);
      WaitersAbandon(l, waiters, {key});
      SignalsAbandon(l, signals, {key});
      TasksAbandon(l, publishedTasks, publishedFrameIndex, acknowledgedPublishedTaskOrder, {key});
      waiters := Waiters(waiters.ack - {key}, waiters.bind - {key}, waiters.challenge - {key}, waiters.fleet - {key});
      signals := Drop(signals, {key});
      frameDestinations := frameDestinations - {key};
      mailboxes := RetainAt(mailboxes, destination, OtherId(frameId));
      ledger := AbandonAll(l, {key});
    }

    /** `remember_acknowledgement`: a new acknowledgement enters and the oldest one may leave; a repeated one changes nothing. */
    method RememberAcknowledgement(key: FrameKey)
      requires NoDup(acknowledgedFrameOrder)
      requires |acknowledgedFrameOrder| <= MAX_RECENT_ACKNOWLEDGEMENTS
      requires forall k :: k in acknowledgedFrames <==> k in acknowledgedFrameOrder
      modifies this`acknowledgedFrames, this`acknowledgedFrameOrder
      ensures acknowledgedFrameOrder
           == if key in old(acknowledgedFrames) then old(acknowledgedFrameOrder)
              else LastN(old(acknowledgedFrameOrder) + [key], MAX_RECENT_ACKNOWLEDGEMENTS)
      ensures forall k :: k in acknowledgedFrames <==> k in acknowledgedFrameOrder
    {
      if key !in acknowledgedFrames {
        acknowledgedFrames := acknowledgedFrames + {key};
        acknowledgedFrameOrder := acknowledgedFrameOrder + [key];
      }
      ghost var pushed := acknowledgedFrameOrder;
      while |acknowledgedFrameOrder| > MAX_RECENT_ACKNOWLEDGEMENTS
        invariant acknowledgedFrameOrder == LastN(pushed, |acknowledgedFrameOrder|)
        invariant |acknowledgedFrameOrder| == |pushed| || |acknowledgedFrameOrder| == MAX_RECENT_ACKNOWLEDGEMENTS
        invariant NoDup(acknowledgedFrameOrder)
        invariant forall k :: k in acknowledgedFrames <==> k in acknowledgedFrameOrder
      {
        var expired := acknowledgedFrameOrder[0];
        assert acknowledgedFrameOrder == [expired] + acknowledgedFrameOrder[1..];
        acknowledgedFrameOrder := acknowledgedFrameOrder[1..];
        acknowledgedFrames := acknowledgedFrames - {expired};
      }
    }

    /** `mark_published_task_acknowledged`: the table then stands for the ledger in which the frame is acknowledged. */
    method MarkPublishedTaskAcknowledged(key: FrameKey)
      modifies this`publishedTasks, this`acknowledgedPublishedTaskOrder
      ensures LedgerInv(ledger) && IsPending(ledger, key) && old(TasksValid()) ==>
                TasksMatch(Acknowledge(ledger, key), publishedTasks, publishedFrameIndex, acknowledgedPublishedTaskOrder)
      ensures
        if key in publishedFrameIndex && publishedFrameIndex[key] in old(publishedTasks)
           && !old(publishedTasks)[publishedFrameIndex[key]].acknowledged
        then
          var tk := publishedFrameIndex[key];
          && publishedTasks == old(publishedTasks)[tk := old(publishedTasks)[tk].(acknowledged := true)]
          && acknowledgedPublishedTaskOrder == old(acknowledgedPublishedTaskOrder) + [tk]
        else unchanged(this`publishedTasks) && unchanged(this`acknowledgedPublishedTaskOrder)
    {
      hide LedgerInv, TasksMatch, Acknowledge, IsPending;
      if LedgerInv(ledger) && IsPending(ledger, key) && TasksValid() {
        TasksAcknowledge(ledger, publishedTasks, publishedFrameIndex, acknowledgedPublishedTaskOrder, key);
      }
      if key in publishedFrameIndex {
        var tk := publishedFrameIndex[key];
        if tk in publishedTasks && !publishedTasks[tk].acknowledged {
          publishedTasks := publishedTasks[tk := publishedTasks[tk].(acknowledged := true)];
          acknowledgedPublishedTaskOrder := acknowledgedPublishedTaskOrder + [tk];
        }
      }
    }

    method AckFrame(destination: string, frameId: string) returns (ack: FrameAcknowledgement)
      requires Valid()
      modifies this
      ensures Valid()
      ensures (View(), ack) == Spec.AckFrame(old(View()), destination, frameId)
      ensures var key := FrameKey(Trim(destination), Trim(frameId));
              signals == if ack.AckAccepted? && key in old(waiters).ack then old(signals)[key := Fired("")] else old(signals)
    {
      hide FramesInv, TasksInv, QueuesMatch, WaitersMatch, SignalsMatch, TasksMatch, Trim, Waiting, Owned, Window, Settles, Acknowledge, Keep;
      var key := FrameKey(Trim(destination), Trim(frameId));
      if key.dest == "" || key.id == "" {
        return AckUnknownFrame;
      }
      AckFrameKeeps(View(), destination, frameId);
      AckReads(ledger, waiters, key);
      QueuesRead(ledger, frameDestinations, mailboxes, acknowledgedFrames, acknowledgedFrameOrder, key.dest);
      if key in waiters.bind || key in waiters.challenge || key in waiters.fleet {
        return AckUnknownFrame;
      }
      if key in acknowledgedFrames {
        WaitingIsUnacknowledged(ledger, frameDestinations, mailboxes, acknowledgedFrames, acknowledgedFrameOrder, waiters, key);
        return AckAccepted;
      }
      if key !in frameDestinations {
        return if SameIdElsewhere(frameDestinations, key.id) then AckWrongDestination else AckUnknownFrame;
      }
      AcknowledgeOwned(key);
      return AckAccepted;
    }

    /** The queue half of an acknowledgement: ownership and mailbox lose the frame, the window gains it. */
    method AcknowledgeQueues(key: FrameKey)
      requires FramesInv(ledger) && QueuesValid() && IsPending(ledger, key)
      modifies this`mailboxes, this`acknowledgedFrames, this`acknowledgedFrameOrder, this`frameDestinations
      ensures QueuesMatch(Acknowledge(ledger, key), frameDestinations, mailboxes, acknowledgedFrames, acknowledgedFrameOrder)
    {
      hide FramesInv, QueuesMatch, Acknowledge, DistinctIds, RetainAt, At, LastN, NoDup;
      ghost var boxes, acked, order := mailboxes, acknowledgedFrames, acknowledgedFrameOrder;
      AckWindow(ledger, frameDestinations, boxes, acked, order, key);
      MailboxIds(ledger, frameDestinations, boxes, acked, order, key.dest);
      RemoveMailboxCopy(key);
      RememberAcknowledgement(key);
      QueuesAcknowledge(ledger, frameDestinations, boxes, acked, order, key, acknowledgedFrames, acknowledgedFrameOrder);
      frameDestinations := frameDestinations - {key};
    }

    /** The settling half of `ack_frame`, for a key that owns a task or result frame. */
    method AcknowledgeOwned(key: FrameKey)
      requires Valid() && IsPending(ledger, key) && !Typed(ledger.entries[key].route)
      requires LedgerInv(Acknowledge(ledger, key))
      modifies this
      ensures Valid() && ledger == Acknowledge(old(ledger), key)
      ensures View() == old(View()).(ledger := ledger)
      ensures signals == if key in old(waiters).ack then old(signals)[key := Fired("")] else old(signals)
    {
      hide FramesInv, TasksInv, QueuesMatch, WaitersMatch, SignalsMatch, TasksMatch, Acknowledge;
      ghost var l := ledger;
      WaitersAcknowledge(l, waiters, signals, key);
      AcknowledgeQueues(key);
      if key in waiters.ack {
        waiters := waiters.Remove(ForAck, key);
        signals := signals[key := Fired("")];
      }
      MarkPublishedTaskAcknowledged(key);
      ledger := Acknowledge(l, key);
    }

    /** `position` then `remove`: the only mailbox copy of the frame goes. */
    method RemoveMailboxCopy(key: FrameKey)
      requires DistinctIds(At(mailboxes, key.dest))
      modifies this`mailboxes
      ensures mailboxes == RetainAt(old(mailboxes), key.dest, OtherId(key.id))
    {
      hide Trim;
      if key.dest in mailboxes {
        var mailbox := mailboxes[key.dest];
        var position := 0;
        while position < |mailbox| && Trim(mailbox[position].frameId) != key.id
          invariant position <= |mailbox|
          invariant forall i :: 0 <= i < position ==> Trim(mailbox[i].frameId) != key.id
        {
          position := position + 1;
        }
        if position < |mailbox| {
          RemoveAtIsKeep(mailbox, position, OtherId(key.id));
          mailboxes := mailboxes[key.dest := mailbox[..position] + mailbox[position + 1..]];
        } else {
          KeepAll(mailbox, OtherId(key.id));
        }
      }
    }

    /** Evict acknowledged identities, oldest first, until the table has room. At most one goes. */
    method MakeRoom()
      requires LedgerInv(ledger) && TasksValid() && |Owned(ledger)| < MAX_TRACKED_FRAMES
      modifies this`publishedTasks, this`publishedFrameIndex, this`acknowledgedPublishedTaskOrder
      ensures TasksMatch(ledger.(tasks := RoomFor(ledger)), publishedTasks, publishedFrameIndex, acknowledgedPublishedTaskOrder)
    {
      hide FramesInv, TasksInv, TasksMatch, Owned, EvictableOf;
      RoomForIsRoom(ledger);
      TasksSize(ledger, publishedTasks, publishedFrameIndex, acknowledgedPublishedTaskOrder);
      assert ledger == ledger.(tasks := ledger.tasks);
      ghost var table := ledger.tasks;
      while |publishedTasks| >= MAX_RETAINED_PUBLISHED_TASKS
        invariant table == ledger.tasks || table == RoomFor(ledger)
        invariant |publishedTasks| == |table|
        invariant TasksMatch(ledger.(tasks := table), publishedTasks, publishedFrameIndex, acknowledgedPublishedTaskOrder)
        decreases |publishedTasks|
      {
        assert ledger == ledger.(tasks := table);
        TasksSize(ledger, publishedTasks, publishedFrameIndex, acknowledgedPublishedTaskOrder);
        TasksEvict(ledger, publishedTasks, publishedFrameIndex, acknowledgedPublishedTaskOrder);
        var expired := acknowledgedPublishedTaskOrder[0];
        acknowledgedPublishedTaskOrder := acknowledgedPublishedTaskOrder[1..];
        publishedFrameIndex := publishedFrameIndex - {FrameKey(expired.dest, publishedTasks[expired].receipt.frameId)};
        publishedTasks := publishedTasks - {expired};
        table := RoomFor(ledger);
        TasksSize(ledger.(tasks := table), publishedTasks, publishedFrameIndex, acknowledgedPublishedTaskOrder);
      }
    }

    /** Admit a new identity and route its frame: the route cannot refuse, as the source's debug_assert claims. */
    method AdmitOwned(key: TaskKey, identity: TaskEnvelope, f: RelayFrame, receipt: Receipt) returns (delivery: FrameDelivery)
      requires Valid() && key !in ledger.tasks && |Owned(ledger)| < MAX_TRACKED_FRAMES
      requires f.frameId == receipt.frameId == Trim(receipt.frameId) != ""
      requires FrameKey(key.dest, receipt.frameId) !in ledger.entries
      requires ExactlyOnePayload(f) && f.task.Some?
      modifies this
      ensures Valid()
      ensures delivery.Delivered? || delivery.Mailboxed?
      ensures var (connected, sent) := Deliver(old(connectedNodes), key.dest, f);
              && delivery == sent
              && View() == old(View()).(ledger := Admit(old(ledger), key, TaskRecord(identity, receipt), f),
                                        registered := old(registered) + {key.dest}, connected := connected)
    {
      hide FramesInv, TasksInv, QueuesMatch, WaitersMatch, SignalsMatch, TasksMatch, EvictableOf, Trim, ExactlyOnePayload, RoomFor, Owned, Window, Deliver, MailboxOf, LastN;
      ghost var l, rec := ledger, TaskRecord(identity, receipt);
      var frameKey := FrameKey(key.dest, receipt.frameId);
      AdmitKeeps(l, key, rec, f);
      MakeRoom();
      TasksAdmit(l, publishedTasks, publishedFrameIndex, acknowledgedPublishedTaskOrder, key, rec, f);
      publishedFrameIndex := publishedFrameIndex[frameKey := key];
      publishedTasks := publishedTasks[key := PublishedTaskRecord(identity, receipt, false)];
      ledger := l.(tasks := RoomFor(l)[key := rec]);
      FramesIgnoreTasks(l, ledger, frameDestinations, mailboxes, acknowledgedFrames, acknowledgedFrameOrder, waiters, signals);
      UnknownIsUntracked(ledger, frameKey);
      WaitersAccept(ledger, waiters, frameKey, f, ForTask(key));
      SignalsAccept(ledger, signals, frameKey, f, ForTask(key));
      DeliverAccepts(connectedNodes, key.dest, f);
      delivery := RouteFrameLocked(key.dest, f, ForTask(key));
    }

    method PublishTaskFrame(key: TaskKey, identity: TaskEnvelope, routed: TaskEnvelope, f: RelayFrame, receipt: Receipt)
      returns (delivery: PublishedTaskDelivery)
      requires Valid()
      requires f.frameId == receipt.frameId == Trim(receipt.frameId)
      requires Fresh(ledger, FrameKey(key.dest, receipt.frameId))
      modifies this
      ensures Valid()
      ensures (View(), delivery) == PublishTask(old(View()), key, identity, routed, f, receipt)
    {
      hide FramesInv, TasksInv, QueuesMatch, WaitersMatch, SignalsMatch, TasksMatch, Owned, Window, EvictableOf, Trim, ExactlyOnePayload, RouteLocked;
      if !IsExactTaskFrame(f, routed) {
        return PublishInvalid;
      }
      ghost var l := ledger;
      TasksRead(l, publishedTasks, publishedFrameIndex, acknowledgedPublishedTaskOrder, key);
      if key in publishedTasks {
        return if publishedTasks[key].envelope == identity then Retry(publishedTasks[key].receipt) else Conflict;
      }
      var frameKey := FrameKey(key.dest, receipt.frameId);
      QueuesRead(l, frameDestinations, mailboxes, acknowledgedFrames, acknowledgedFrameOrder, key.dest);
      if frameKey in frameDestinations || frameKey in acknowledgedFrames
         || |frameDestinations| >= MAX_TRACKED_FRAMES || Trim(receipt.frameId) == ""
         || |At(mailboxes, key.dest)| >= MAX_TRACKED_FRAMES
      {
        return PublishCapacity;
      }
      var routedAs := AdmitOwned(key, identity, f, receipt);
      return New(receipt, routedAs);
    }

    /** Attach a stream: take the next generation, replay the mailbox, and install the stream only if it took every frame. */
    method ConnectNodeFenced(node: string, sender: Stream) returns (replayed: nat, generation: nat)
      requires Valid()
      modifies this
      ensures Valid()
      ensures (View(), replayed, generation) == Connect(old(View()), node, sender)
    {
      hide FramesInv, TasksInv, QueuesMatch, WaitersMatch, SignalsMatch, TasksMatch, Trim, MailboxOf;
      ghost var mailbox := Mailbox(ledger, node);
      nextConnectionGeneration := NextGeneration(nextConnectionGeneration);
      generation := nextConnectionGeneration;
      registered := registered + {node};
      var pending := Unacknowledged(node);
      var stream, streamOpen;
      stream, replayed, streamOpen := Replay(sender, pending);
      if streamOpen {
        assert mailbox[..|mailbox|] == mailbox;
        connectedNodes := connectedNodes[node := Connection(generation, stream)];
      }
    }

    /** The replay filter. No mailboxed frame is in the acknowledgement window, so it drops nothing. */
    method Unacknowledged(node: string) returns (pending: seq<RelayFrame>)
      requires FramesInv(ledger) && QueuesValid()
      ensures pending == Mailbox(ledger, node)
    {
      hide FramesInv, QueuesMatch, Trim, MailboxOf;
      MailboxUnacknowledged(ledger, frameDestinations, mailboxes, acknowledgedFrames, acknowledgedFrameOrder, node);
      var mailbox := At(mailboxes, node);
      pending := [];
      for i := 0 to |mailbox|
        invariant pending == mailbox[..i]
      {
        var id := Trim(mailbox[i].frameId);
        if !(id != "" && FrameKey(node, id) in acknowledgedFrames) {
          pending := pending + [mailbox[i]];
        }
      }
    }

    /** Drop the Fleet waiters and frames of a destination whose stream is gone. */
    method AbandonFleetDestination(node: string)
      requires Valid()
      modifies this`waiters, this`signals, this`frameDestinations, this`mailboxes, this`ledger
      ensures Valid() && ledger == AbandonAll(old(ledger), FleetKeys(old(ledger), node))
    {
      hide FramesInv, TasksInv, QueuesMatch, WaitersMatch, SignalsMatch, TasksMatch, RetainAt, Drop, AbandonAll, FleetKeys;
      ghost var l := ledger;
      var keys := set k | k in waiters.fleet && k.dest == node;
      FleetReads(l, waiters, node);
      AbandonAllKeeps(l, keys);
      QueuesAbandonFleet(l, frameDestinations, mailboxes, acknowledgedFrames, acknowledgedFrameOrder, node);
      WaitersAbandonFleet(l, waiters, node);
      SignalsAbandon(l, signals, keys);
      TasksAbandon(l, publishedTasks, publishedFrameIndex, acknowledgedPublishedTaskOrder, keys);
      DropFleetWaiters(keys);
      mailboxes := RetainAt(mailboxes, node, NotFleet());
      ledger := AbandonAll(l, keys);
    }

    method DropFleetWaiters(keys: set<FrameKey>)
      modifies this`waiters, this`signals, this`frameDestinations
      ensures waiters == old(waiters).(fleet := old(waiters).fleet - keys)
      ensures frameDestinations == old(frameDestinations) - keys
      ensures signals == Drop(old(signals), keys)
    {
      var todo := keys;
      while todo != {}
        invariant todo <= keys
        invariant waiters == old(waiters).(fleet := old(waiters).fleet - (keys - todo))
        invariant frameDestinations == old(frameDestinations) - (keys - todo)
        invariant signals == Drop(old(signals), keys - todo)
        decreases todo
      {
        var key :| key in todo;
        waiters := waiters.Remove(ForFleet, key);
        frameDestinations := frameDestinations - {key};
        signals := Drop(signals, {key});
        todo := todo - {key};
      }
    }

    method DisconnectNode(node: string)
      requires Valid()
      modifies this
      ensures Valid() && View() == Spec.DisconnectNode(old(View()), node)
    {
      hide LedgerInv, QueuesMatch, WaitersMatch, SignalsMatch, TasksMatch;
      if node in connectedNodes {
        connectedNodes := connectedNodes - {node};
        AbandonFleetDestination(node);
      }
    }

    method DisconnectNodeIfCurrent(node: string, generation: nat)
      requires Valid()
      modifies this
      ensures Valid() && View() == DisconnectIfCurrent(old(View()), node, generation)
    {
      hide LedgerInv, QueuesMatch, WaitersMatch, SignalsMatch, TasksMatch;
      if node in connectedNodes && connectedNodes[node].generation == generation {
        DisconnectNode(node);
      }
    }
  }

  /** Send the pending frames in order until the stream refuses one. */
  method Replay(sender: Stream, pending: seq<RelayFrame>) returns (stream: Stream, replayed: nat, streamOpen: bool)
    ensures replayed == Replayable(sender, |pending|) <= |pending|
    ensures streamOpen <==> replayed == |pending|
    ensures stream == sender.(queue := sender.queue + pending[..replayed])
  {
    stream, replayed, streamOpen := sender, 0, true;
    while streamOpen && replayed < |pending|
      invariant replayed <= Replayable(sender, |pending|) <= |pending|
      invariant stream == sender.(queue := sender.queue + pending[..replayed])
      invariant !streamOpen ==> replayed == Replayable(sender, |pending|) < |pending|
      decreases |pending| - replayed, streamOpen
    {
      var (next, sent) := TrySend(stream, pending[replayed]);
      if sent == Sent {
        assert pending[..replayed + 1] == pending[..replayed] + [pending[replayed]];
        stream := next;
        replayed := replayed + 1;
      } else {
        streamOpen := false;
      }
    }
  }
}
