/** What the live streams carry, over every run. */
module RelayStreams {
  import opened Basics
  import opened Text
  import opened RelayFrames
  import opened Ledger
  import opened TaskTable
  import opened RelaySpec
  import opened RelaySystem
  import opened RelayTheorems

  function KeyOn(node: string, f: RelayFrame): FrameKey {
    FrameKey(node, Trim(f.frameId))
  }

  /** Every queued frame is one the ledger accepted for this node, unaltered, and none is queued twice. */
  ghost predicate QueueOk(l: Ledger, node: string, queue: seq<RelayFrame>) {
    && (forall i :: 0 <= i < |queue| ==> KeyOn(node, queue[i]) in l.entries && l.entries[KeyOn(node, queue[i])].frame == queue[i])
    && (forall i, j :: 0 <= i < j < |queue| ==> KeyOn(node, queue[i]) != KeyOn(node, queue[j]))
  }

  ghost predicate StreamsOk(s: RelayState) {
    forall node :: node in s.connected ==> QueueOk(s.ledger, node, s.connected[node].stream.queue)
  }

  /** How one event may change the queue of a node that ends up connected: a replay, a receipt, or a push of a new frame. */
  ghost predicate QueueEvolves(s: System, e: Event, t: RelayState, node: string, queue: seq<RelayFrame>) {
    || (e == Connected(node) && queue == Mailbox(s.relay.ledger, node))
    || (node in s.relay.connected
        && var before := s.relay.connected[node].stream.queue;
           || queue == before
           || (e == Received(node) && before != [] && queue == before[1..])
           || exists f :: queue == before + [f] && KeyOn(node, f) !in s.relay.ledger.entries
                          && KeyOn(node, f) in t.ledger.entries && t.ledger.entries[KeyOn(node, f)].frame == f)
  }

  predicate HasRoom(stream: Stream) {
    stream.open && |stream.queue| < stream.capacity
  }

  /**
   A live push touches no other node's connection. At its target it appends the frame exactly when it
   answers Delivered, which is exactly when the stream is open with room; a closed stream is dropped.
   */
  lemma DeliverQueues(connected: map<string, Connection>, target: string, f: RelayFrame)
    ensures var (after, delivery) := Deliver(connected, target, f);
            && after - {target} == connected - {target}
            && (target in after <==> target in connected && connected[target].stream.open)
            && (delivery.Delivered? <==> target in connected && HasRoom(connected[target].stream))
            && (target in after ==>
                  after[target].stream.queue == connected[target].stream.queue + if delivery.Delivered? then [f] else [])
  {
    var (after, delivery) := Deliver(connected, target, f);
    if target in connected {
      var queue := connected[target].stream.queue;
      assert queue + [] == queue;
    }
    assert after - {target} == connected - {target};
  }

  lemma DeliverElsewhere(connected: map<string, Connection>, target: string, f: RelayFrame, node: string)
    requires node in Deliver(connected, target, f).0 && node != target
    ensures node in connected && Deliver(connected, target, f).0[node] == connected[node]
  {
  }

  lemma TaskPublishedQueue(s: System, e: Event, node: string)
    requires SysInv(s) && Enabled(s, e) && e.TaskPublished? && node in RelayStep(s, e).connected
    ensures QueueEvolves(s, e, RelayStep(s, e), node, RelayStep(s, e).connected[node].stream.queue)
  {
    hide LedgerInv, Owned, Window, Trim, Deliver, MailboxOf, RoomFor;
    NewIdIsFresh(s, e.frameId, e.dest);
    var f := TaskFrameOf(e);
    if PublishHandler(s.relay, e).1.New? {
      DeliverQueues(s.relay.connected, e.dest, f);
      if node != e.dest { DeliverElsewhere(s.relay.connected, e.dest, f, node); }
      assert KeyOn(e.dest, f) == FrameKey(e.dest, e.frameId);
    }
  }

  lemma FramePublishedQueue(s: System, e: Event, node: string)
    requires SysInv(s) && Enabled(s, e) && e.FramePublished? && node in RelayStep(s, e).connected
    ensures QueueEvolves(s, e, RelayStep(s, e), node, RelayStep(s, e).connected[node].stream.queue)
  {
    hide LedgerInv, Owned, Window, Trim, Deliver, MailboxOf, Admissible;
    NewIdIsFresh(s, e.frame.frameId, e.dest);
    RouteLockedCases(s.relay, e.dest, e.frame, e.route);
    if Accepted(RouteWaiting(s.relay, e.route, e.dest, e.frame).1) {
      DeliverQueues(s.relay.connected, e.dest, e.frame);
      if node != e.dest { DeliverElsewhere(s.relay.connected, e.dest, e.frame, node); }
    }
  }

  lemma EveryQueue(s: System, e: Event, node: string)
    requires SysInv(s) && Enabled(s, e) && node in RelayStep(s, e).connected
    ensures QueueEvolves(s, e, RelayStep(s, e), node, RelayStep(s, e).connected[node].stream.queue)
  {
    hide SysInv, Owned, Window, Waiting, Trim, MailboxOf, Admissible, PublishTask, RouteWaiting, IsPending, Replayable;
    if e.TaskPublished? {
      TaskPublishedQueue(s, e, node);
    } else if e.FramePublished? {
      FramePublishedQueue(s, e, node);
    } else if e == Connected(node) {
      assert [] + Mailbox(s.relay.ledger, node) == Mailbox(s.relay.ledger, node);
    }
  }

  /** A frame on the ledger keeps its content under any event. */
  lemma QueueStays(s: System, e: Event, l: Ledger, node: string, queue: seq<RelayFrame>)
    requires EntriesEvolve(s, e, l) && QueueOk(s.relay.ledger, node, queue)
    ensures QueueOk(l, node, queue)
  {
    hide SettledBy, IsPending, Trim;
    forall i | 0 <= i < |queue| ensures KeyOn(node, queue[i]) in l.entries && l.entries[KeyOn(node, queue[i])].frame == queue[i] {
      assert EntryEvolves(s, e, l, KeyOn(node, queue[i]));
    }
  }

  lemma MailboxQueue(l: Ledger, node: string)
    requires FramesInv(l)
    ensures QueueOk(l, node, Mailbox(l, node))
  {
    hide MailboxOf, Trim, FramesInv;
    var box := Mailbox(l, node);
    forall i | 0 <= i < |box| ensures KeyOn(node, box[i]) in l.entries && l.entries[KeyOn(node, box[i])].frame == box[i] {
      MailboxedIsPending(l, node, i);
    }
    forall i, j | 0 <= i < j < |box| ensures KeyOn(node, box[i]) != KeyOn(node, box[j]) {
      MailboxPair(l, node, i, j);
    }
  }

  lemma MailboxPair(l: Ledger, node: string, i: nat, j: nat)
    requires FramesInv(l) && i < j < |Mailbox(l, node)|
    ensures Trim(Mailbox(l, node)[i].frameId) != Trim(Mailbox(l, node)[j].frameId)
  {
    forall k | k in l.order ensures k in l.entries && EntryOk(k, l.entries[k]) {}
    MailboxDistinct(l.order, l.entries, node, i, j);
  }

  lemma QueueStep(s: System, e: Event, t: RelayState, node: string, queue: seq<RelayFrame>)
    requires SysInv(s) && StreamsOk(s.relay) && EntriesEvolve(s, e, t.ledger) && QueueEvolves(s, e, t, node, queue)
    ensures QueueOk(t.ledger, node, queue)
  {
    hide EntriesEvolve, FramesInv, TasksInv, MailboxOf, Trim, PublisherOk, HeldKeys;
    if e == Connected(node) && queue == Mailbox(s.relay.ledger, node) {
      MailboxQueue(s.relay.ledger, node);
      QueueStays(s, e, t.ledger, node, queue);
    } else {
      var before := s.relay.connected[node].stream.queue;
      assert QueueOk(s.relay.ledger, node, before);
      QueueStays(s, e, t.ledger, node, before);
    }
  }

  /**
   In every run, what waits on a node's live stream was accepted for that node and is unaltered, and
   no frame waits there twice, whatever was replayed, pushed, received, settled or reconnected.
   */
  lemma {:induction false} LiveStreamsAreSound(es: seq<Event>)
    ensures StreamsOk(Exec(es).relay)
  {
    hide SysInv, Enabled, RelayStep, PublishersStep, QueueOk, LedgerInv, EntriesEvolve, EntriesAdded, QueueEvolves;
    if es != [] {
      var s, e := Exec(es[..|es| - 1]), es[|es| - 1];
      LiveStreamsAreSound(es[..|es| - 1]);
      ReachableInv(es[..|es| - 1]);
      if Enabled(s, e) {
        EveryStep(s, e);
        forall node | node in RelayStep(s, e).connected
          ensures QueueOk(RelayStep(s, e).ledger, node, RelayStep(s, e).connected[node].stream.queue)
        {
          EveryQueue(s, e, node);
          QueueStep(s, e, RelayStep(s, e), node, RelayStep(s, e).connected[node].stream.queue);
        }
      }
    }
  }
}
