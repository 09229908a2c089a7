/**
 The relay's delivery state, said once. A ledger lists every frame ever accepted, in acceptance
 order, each with its fate; the acknowledgements, in order; and the retained task identities.
 Every collection of the source's `PeerState` is a projection of these four components.
 */
module Ledger {
  import opened Basics
  import opened Text
  import opened RelayFrames

  const MAX_TRACKED_FRAMES: nat := 8192
  const MAX_RECENT_ACKNOWLEDGEMENTS: nat := 8192
  const MAX_RETAINED_PUBLISHED_TASKS: nat := 8192

  datatype Fate = Pending | Acknowledged | Completed(result: string) | Abandoned
  datatype Entry = Entry(frame: RelayFrame, route: Route, fate: Fate)
  datatype TaskRecord = TaskRecord(envelope: TaskEnvelope, receipt: Receipt)

  datatype Ledger = Ledger(
    order: seq<FrameKey>,
    entries: map<FrameKey, Entry>,
    acks: seq<FrameKey>,
    tasks: map<TaskKey, TaskRecord>)

  const Empty: Ledger := Ledger([], map[], [], map[])

  // ---------- Projections ----------

  ghost predicate IsPending(l: Ledger, k: FrameKey) {
    k in l.entries && l.entries[k].fate.Pending?
  }

  /** `frame_destinations`: the keys that own a frame. */
  ghost function Owned(l: Ledger): set<FrameKey> {
    set k | k in l.entries && l.entries[k].fate.Pending?
  }

  /** The waiter map of one route. */
  ghost function Waiting(l: Ledger, r: Route): set<FrameKey> {
    set k | k in l.entries && l.entries[k].fate.Pending? && l.entries[k].route == r
  }

  ghost function MailboxOf(order: seq<FrameKey>, entries: map<FrameKey, Entry>, d: string): seq<RelayFrame> {
    if order == [] then []
    else
      var k := order[|order| - 1];
      MailboxOf(order[..|order| - 1], entries, d)
      + if k in entries && entries[k].fate.Pending? && k.dest == d then [entries[k].frame] else []
  }

  /** The FIFO mailbox of destination `d`. */
  ghost function Mailbox(l: Ledger, d: string): seq<RelayFrame> {
    MailboxOf(l.order, l.entries, d)
  }

  function LastN<T>(s: seq<T>, n: nat): seq<T> {
    if |s| <= n then s else s[|s| - n..]
  }

  /** `acknowledged_frame_order`: the newest acknowledgements. */
  ghost function Window(l: Ledger): seq<FrameKey> {
    LastN(l.acks, MAX_RECENT_ACKNOWLEDGEMENTS)
  }

  function TaskFrame(tk: TaskKey, rec: TaskRecord): FrameKey {
    FrameKey(tk.dest, rec.receipt.frameId)
  }

  /** The entry at `k` carries a task identity that the table still retains for this very frame. */
  ghost predicate Retained(k: FrameKey, entries: map<FrameKey, Entry>, tasks: map<TaskKey, TaskRecord>) {
    && k in entries && entries[k].route.ForTask?
    && entries[k].route.task in tasks
    && TaskFrame(entries[k].route.task, tasks[entries[k].route.task]) == k
  }

  ghost function EvictableOf(acks: seq<FrameKey>, entries: map<FrameKey, Entry>, tasks: map<TaskKey, TaskRecord>): seq<TaskKey> {
    if acks == [] then []
    else
      var k := acks[|acks| - 1];
      EvictableOf(acks[..|acks| - 1], entries, tasks)
      + if Retained(k, entries, tasks) then [entries[k].route.task] else []
  }

  /** `acknowledged_published_task_order`: retained identities, oldest acknowledgement first. */
  ghost function Evictable(l: Ledger): seq<TaskKey> {
    EvictableOf(l.acks, l.entries, l.tasks)
  }

  // ---------- Invariant ----------

  ghost predicate NoDup<T>(s: seq<T>) {
    forall i, j :: 0 <= i < j < |s| ==> s[i] != s[j]
  }

  /** Acknowledgement settles only tasks and results, completion only typed controls; tasks are never abandoned. */
  predicate FateFits(route: Route, fate: Fate) {
    match fate
    case Pending => true
    case Acknowledged => route.ForTask? || route.ForAck?
    case Completed(_) => Typed(route)
    case Abandoned => !route.ForTask?
  }

  predicate EntryOk(k: FrameKey, e: Entry) {
    && k.id == Trim(e.frame.frameId) && k.id != ""
    && ExactlyOnePayload(e.frame)
    && PayloadFits(e.frame, e.route)
    && (e.route.ForTask? ==> e.route.task.dest == k.dest)
    && FateFits(e.route, e.fate)
  }

  ghost predicate OrderInv(l: Ledger) {
    NoDup(l.order) && forall k :: k in l.order <==> k in l.entries
  }

  ghost predicate AcksInv(l: Ledger) {
    NoDup(l.acks) && forall k :: k in l.acks <==> k in l.entries && l.entries[k].fate.Acknowledged?
  }

  ghost predicate EntriesInv(l: Ledger) {
    forall k {:trigger EntryOk(k, l.entries[k])} :: k in l.entries ==> EntryOk(k, l.entries[k])
  }

  ghost predicate FramesInv(l: Ledger) {
    OrderInv(l) && AcksInv(l) && EntriesInv(l) && |Owned(l)| <= MAX_TRACKED_FRAMES
  }

  ghost predicate TasksInv(l: Ledger) {
    && |l.tasks| <= MAX_RETAINED_PUBLISHED_TASKS
    && (forall tk :: tk in l.tasks ==>
          && TaskFrame(tk, l.tasks[tk]) in l.entries
          && l.entries[TaskFrame(tk, l.tasks[tk])].route == ForTask(tk))
    && (forall k :: k in l.entries && l.entries[k].fate.Pending? && l.entries[k].route.ForTask?
          ==> Retained(k, l.entries, l.tasks))
  }

  ghost predicate LedgerInv(l: Ledger) {
    FramesInv(l) && TasksInv(l)
  }

  // ---------- Primitive changes ----------

  ghost function Accept(l: Ledger, k: FrameKey, frame: RelayFrame, route: Route): Ledger {
    l.(order := l.order + [k], entries := l.entries[k := Entry(frame, route, Pending)])
  }

  ghost function Acknowledge(l: Ledger, k: FrameKey): Ledger
    requires k in l.entries
  {
    l.(entries := l.entries[k := l.entries[k].(fate := Acknowledged)], acks := l.acks + [k])
  }

  ghost function Complete(l: Ledger, k: FrameKey, result: string): Ledger
    requires k in l.entries
  {
    l.(entries := l.entries[k := l.entries[k].(fate := Completed(result))])
  }

  ghost function AbandonAll(l: Ledger, ks: set<FrameKey>): Ledger {
    l.(entries := map k | k in l.entries ::
         if k in ks && l.entries[k].fate.Pending? then l.entries[k].(fate := Abandoned) else l.entries[k])
  }

  /** The Fleet frames a disconnect of `d` gives up. */
  ghost function FleetKeys(l: Ledger, d: string): set<FrameKey> {
    set k | k in Waiting(l, ForFleet) && k.dest == d
  }

  // ---------- `VecDeque::retain` ----------

  function Keep(s: seq<RelayFrame>, p: RelayFrame -> bool): seq<RelayFrame> {
    if s == [] then []
    else Keep(s[..|s| - 1], p) + if p(s[|s| - 1]) then [s[|s| - 1]] else []
  }

  function OtherId(id: string): RelayFrame -> bool {
    (f: RelayFrame) => Trim(f.frameId) != id
  }

  function NotFleet(): RelayFrame -> bool {
    (f: RelayFrame) => f.fleet.None?
  }

  // ---------- Mailboxes follow the entries ----------

  /** A mailbox depends only on the entries its order mentions; dropping entries is `Keep`. */
  lemma {:induction false} MailboxRetain(
      order: seq<FrameKey>, before: map<FrameKey, Entry>, after: map<FrameKey, Entry>,
      d: string, p: RelayFrame -> bool)
    requires forall k :: k in order ==> k in before && k in after && after[k].frame == before[k].frame
    requires forall k :: k in order ==>
               (after[k].fate.Pending? <==> before[k].fate.Pending? && (k.dest == d ==> p(before[k].frame)))
    ensures MailboxOf(order, after, d) == Keep(MailboxOf(order, before, d), p)
    ensures forall e :: e != d ==> MailboxOf(order, after, e) == MailboxOf(order, before, e)
  {
    if order != [] {
      var n := |order| - 1;
      MailboxRetain(order[..n], before, after, d, p);
      var m := MailboxOf(order[..n], before, d);
      var k := order[n];
      if k.dest == d && before[k].fate.Pending? {
        assert (m + [before[k].frame])[..|m|] == m;
      } else {
        assert m + [] == m;
      }
    }
  }

  lemma {:induction false} MailboxFrame(
      order: seq<FrameKey>, before: map<FrameKey, Entry>, after: map<FrameKey, Entry>, d: string)
    requires forall k :: k in order ==> k in before && k in after && after[k] == before[k]
    ensures MailboxOf(order, after, d) == MailboxOf(order, before, d)
  {
    if order != [] {
      MailboxFrame(order[..|order| - 1], before, after, d);
    }
  }

  /** Every mailboxed frame is a pending entry of that destination. */
  lemma {:induction false} MailboxSound(order: seq<FrameKey>, entries: map<FrameKey, Entry>, d: string, i: nat)
    requires forall k :: k in order ==> k in entries && EntryOk(k, entries[k])
    requires i < |MailboxOf(order, entries, d)|
    ensures var f := MailboxOf(order, entries, d)[i];
            var k := FrameKey(d, Trim(f.frameId));
            k in order && entries[k].fate.Pending? && entries[k].frame == f
  {
    var n := |order| - 1;
    if i < |MailboxOf(order[..n], entries, d)| {
      MailboxSound(order[..n], entries, d, i);
    }
  }

  lemma {:induction false} MailboxComplete(order: seq<FrameKey>, entries: map<FrameKey, Entry>, k: FrameKey)
    requires k in order && k in entries && entries[k].fate.Pending?
    ensures entries[k].frame in MailboxOf(order, entries, k.dest)
  {
    var n := |order| - 1;
    if order[n] != k {
      MailboxComplete(order[..n], entries, k);
    }
  }

  /** No two frames of one mailbox share an id. */
  lemma {:induction false} MailboxDistinct(order: seq<FrameKey>, entries: map<FrameKey, Entry>, d: string, i: nat, j: nat)
    requires NoDup(order)
    requires forall k :: k in order ==> k in entries && EntryOk(k, entries[k])
    requires i < j < |MailboxOf(order, entries, d)|
    ensures Trim(MailboxOf(order, entries, d)[i].frameId) != Trim(MailboxOf(order, entries, d)[j].frameId)
  {
    var n := |order| - 1;
    var m := MailboxOf(order[..n], entries, d);
    if j < |m| {
      MailboxDistinct(order[..n], entries, d, i, j);
    } else {
      MailboxSound(order[..n], entries, d, i);
    }
  }

  lemma EntryIds(l: Ledger)
    requires OrderInv(l) && EntriesInv(l)
    ensures forall k :: k in l.order ==> k in l.entries && Trim(l.entries[k].frame.frameId) == k.id
  {
    forall k | k in l.order ensures k in l.entries && Trim(l.entries[k].frame.frameId) == k.id {
      assert EntryOk(k, l.entries[k]);
    }
  }

  /** Exactly-one-payload makes the Fleet payload and the Fleet route coincide. */
  lemma FleetPayloads(l: Ledger)
    requires EntriesInv(l)
    ensures forall k :: k in l.entries ==> (l.entries[k].frame.fleet.None? <==> l.entries[k].route != ForFleet)
  {
    forall k | k in l.entries ensures l.entries[k].frame.fleet.None? <==> l.entries[k].route != ForFleet {
      assert EntryOk(k, l.entries[k]);
    }
  }

  /** Every mailboxed frame is pending under its own key. */
  lemma MailboxedIsPending(l: Ledger, d: string, i: nat)
    requires FramesInv(l) && i < |Mailbox(l, d)|
    ensures var f := Mailbox(l, d)[i];
            var k := FrameKey(d, Trim(f.frameId));
            IsPending(l, k) && l.entries[k].frame == f
  {
    forall k | k in l.order ensures k in l.entries && EntryOk(k, l.entries[k]) {}
    MailboxSound(l.order, l.entries, d, i);
  }

  lemma UnknownIsUntracked(l: Ledger, k: FrameKey)
    requires FramesInv(l) && k !in l.entries
    ensures k !in Owned(l) && k !in Window(l)
  {
  }

  // ---------- What each primitive does to every projection ----------

  lemma AcceptProjects(l: Ledger, k: FrameKey, frame: RelayFrame, route: Route)
    requires OrderInv(l) && k !in l.entries
    ensures var m := Accept(l, k, frame, route);
            && Owned(m) == Owned(l) + {k}
            && (forall r :: Waiting(m, r) == if r == route then Waiting(l, r) + {k} else Waiting(l, r))
            && (forall d :: Mailbox(m, d) == if d == k.dest then Mailbox(l, d) + [frame] else Mailbox(l, d))
  {
    var m := Accept(l, k, frame, route);
    assert Owned(m) == Owned(l) + {k};
    forall d ensures Mailbox(m, d) == if d == k.dest then Mailbox(l, d) + [frame] else Mailbox(l, d) {
      assert m.order[..|l.order|] == l.order;
      MailboxFrame(l.order, l.entries, m.entries, d);
    }
  }

  lemma AcceptKeeps(l: Ledger, k: FrameKey, frame: RelayFrame, route: Route)
    requires FramesInv(l) && k !in l.entries && |Owned(l)| < MAX_TRACKED_FRAMES
    requires EntryOk(k, Entry(frame, route, Pending))
    ensures FramesInv(Accept(l, k, frame, route))
  {
    AcceptProjects(l, k, frame, route);
    var m := Accept(l, k, frame, route);
    assert OrderInv(m) by {
      forall j ensures j in m.order <==> j in m.entries {}
    }
    assert EntriesInv(m) by {
      forall j | j in m.entries ensures EntryOk(j, m.entries[j]) {
        if j != k { assert m.entries[j] == l.entries[j]; }
      }
    }
    assert AcksInv(m) by {
      forall j ensures j in m.acks <==> j in m.entries && m.entries[j].fate.Acknowledged? {}
    }
  }

  /** `m` gives the pending entry at `k` a final fate and changes no other entry. */
  ghost predicate Settles(l: Ledger, m: Ledger, k: FrameKey) {
    && IsPending(l, k) && m.order == l.order && k in m.entries && !m.entries[k].fate.Pending?
    && m.entries == l.entries[k := l.entries[k].(fate := m.entries[k].fate)]
  }

  /** A settled key leaves ownership and its waiter map, and no other key moves. */
  lemma SettleProjects(l: Ledger, m: Ledger, k: FrameKey)
    requires Settles(l, m, k)
    ensures Owned(m) == Owned(l) - {k}
    ensures forall r :: Waiting(m, r) == Waiting(l, r) - {k}
  {
  }

  /** ... and its frame leaves its mailbox, in place. */
  lemma SettleMailbox(l: Ledger, m: Ledger, k: FrameKey)
    requires FramesInv(l) && Settles(l, m, k)
    ensures Mailbox(m, k.dest) == Keep(Mailbox(l, k.dest), OtherId(k.id))
    ensures forall d :: d != k.dest ==> Mailbox(m, d) == Mailbox(l, d)
  {
    EntryIds(l);
    MailboxRetain(l.order, l.entries, m.entries, k.dest, OtherId(k.id));
  }

  lemma SettleKeeps(l: Ledger, m: Ledger, k: FrameKey)
    requires OrderInv(l) && EntriesInv(l) && |Owned(l)| <= MAX_TRACKED_FRAMES && Settles(l, m, k)
    requires FateFits(l.entries[k].route, m.entries[k].fate)
    ensures OrderInv(m) && EntriesInv(m) && |Owned(m)| <= MAX_TRACKED_FRAMES
  {
    assert Owned(m) == Owned(l) - {k};
    forall j | j in m.entries ensures EntryOk(j, m.entries[j]) {
      assert EntryOk(j, l.entries[j]);
    }
  }

  lemma AcknowledgeKeeps(l: Ledger, k: FrameKey)
    requires FramesInv(l) && IsPending(l, k) && FateFits(l.entries[k].route, Acknowledged)
    ensures FramesInv(Acknowledge(l, k))
  {
    SettleKeeps(l, Acknowledge(l, k), k);
  }

  lemma CompleteKeeps(l: Ledger, k: FrameKey, result: string)
    requires FramesInv(l) && IsPending(l, k) && Typed(l.entries[k].route)
    ensures FramesInv(Complete(l, k, result))
  {
    SettleKeeps(l, Complete(l, k, result), k);
  }

  lemma AbandonProjects(l: Ledger, ks: set<FrameKey>)
    ensures var m := AbandonAll(l, ks);
            Owned(m) == Owned(l) - ks && forall r :: Waiting(m, r) == Waiting(l, r) - ks
  {
  }

  lemma AbandonKeeps(l: Ledger, ks: set<FrameKey>)
    requires FramesInv(l)
    requires forall k :: k in ks && IsPending(l, k) ==> !l.entries[k].route.ForTask?
    ensures FramesInv(AbandonAll(l, ks))
  {
    var m := AbandonAll(l, ks);
    assert |Owned(m)| <= MAX_TRACKED_FRAMES by {
      assert Owned(l) == Owned(m) + (Owned(l) * ks);
    }
    assert EntriesInv(m) by {
      forall k | k in m.entries ensures EntryOk(k, m.entries[k]) {
        assert EntryOk(k, l.entries[k]);
      }
    }
    assert AcksInv(m) by {
      forall k ensures k in m.acks <==> k in m.entries && m.entries[k].fate.Acknowledged? {}
    }
  }

  lemma AbandonOneMailbox(l: Ledger, k: FrameKey)
    requires FramesInv(l)
    ensures Mailbox(AbandonAll(l, {k}), k.dest) == Keep(Mailbox(l, k.dest), OtherId(k.id))
    ensures forall d :: d != k.dest ==> Mailbox(AbandonAll(l, {k}), d) == Mailbox(l, d)
  {
    EntryIds(l);
    MailboxRetain(l.order, l.entries, AbandonAll(l, {k}).entries, k.dest, OtherId(k.id));
  }

  lemma AbandonFleetMailbox(l: Ledger, d: string)
    requires FramesInv(l)
    ensures Mailbox(AbandonAll(l, FleetKeys(l, d)), d) == Keep(Mailbox(l, d), NotFleet())
    ensures forall e :: e != d ==> Mailbox(AbandonAll(l, FleetKeys(l, d)), e) == Mailbox(l, e)
  {
    FleetPayloads(l);
    MailboxRetain(l.order, l.entries, AbandonAll(l, FleetKeys(l, d)).entries, d, NotFleet());
  }
}
