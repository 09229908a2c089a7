/** Which pending frames a live stream carries: an exact condition, and the run in which one is missed. */
module RelayCoverage {
  import opened Basics
  import opened Text
  import opened RelayFrames
  import opened Ledger
  import opened TaskTable
  import opened RelaySpec
  import opened RelaySystem
  import opened RelayTheorems
  import opened RelayGuarantees
  import opened RelayConservation
  import opened RelayFencing
  import opened RelayStreams

  predicate InQueue(queue: seq<RelayFrame>, k: FrameKey) {
    exists i :: 0 <= i < |queue| && KeyOn(k.dest, queue[i]) == k
  }

  /** At point `m` of the run the frame waits on its destination's stream. */
  ghost predicate Queued(es: seq<Event>, m: nat, k: FrameKey) {
    && m <= |es| && k.dest in Exec(es[..m]).relay.connected
    && InQueue(Exec(es[..m]).relay.connected[k.dest].stream.queue, k)
  }

  /** The frame is on the stream installed at `c`, or was received from it. */
  ghost predicate Carried(es: seq<Event>, c: nat, k: FrameKey) {
    exists m :: c < m <= |es| && Queued(es, m, k)
  }

  /** The destination was connected, with room on its stream, when the event at `i` came. */
  ghost predicate HadRoom(es: seq<Event>, i: nat, node: string) {
    && i < |es| && node in Exec(es[..i]).relay.connected
    && HasRoom(Exec(es[..i]).relay.connected[node].stream)
  }

  // ---------- Queues, one event at a time ----------

  lemma InQueueSteps(queue: seq<RelayFrame>, k: FrameKey)
    ensures forall f :: InQueue(queue + [f], k) <==> InQueue(queue, k) || KeyOn(k.dest, f) == k
    ensures queue != [] ==> (InQueue(queue, k) <==> KeyOn(k.dest, queue[0]) == k || InQueue(queue[1..], k))
  {
    hide KeyOn;
    forall f ensures InQueue(queue + [f], k) <==> InQueue(queue, k) || KeyOn(k.dest, f) == k {
      var longer := queue + [f];
      assert longer[|queue|] == f && forall i :: 0 <= i < |queue| ==> longer[i] == queue[i];
    }
    if queue != [] {
      assert forall i :: 0 < i < |queue| ==> queue[i] == queue[1..][i - 1];
    }
  }

  /** A frame leaves the stream of a node that stays connected only by being received, at its head. */
  lemma LeavesByReceipt(es: seq<Event>, m: nat, k: FrameKey)
    requires m < |es| && Queued(es, m, k) && !Queued(es, m + 1, k) && es[m] != Connected(k.dest)
    requires k.dest in Exec(es[..m + 1]).relay.connected
    ensures es[m] == Received(k.dest) && KeyOn(k.dest, Exec(es[..m]).relay.connected[k.dest].stream.queue[0]) == k
  {
    hide Exec, KeyOn, InQueue;
    RunQueue(es, m, k.dest);
    InQueueSteps(Exec(es[..m]).relay.connected[k.dest].stream.queue, k);
  }

  lemma RunQueue(es: seq<Event>, m: nat, node: string)
    requires m < |es| && node in Exec(es[..m + 1]).relay.connected && es[m] != Connected(node)
    ensures node in Exec(es[..m]).relay.connected
    ensures var queue := Exec(es[..m + 1]).relay.connected[node].stream.queue;
            || queue == Exec(es[..m]).relay.connected[node].stream.queue
            || QueueEvolves(Exec(es[..m]), es[m], Exec(es[..m + 1]).relay, node, queue)
  {
    hide Exec, RelayStep, PublishersStep, Enabled, SysInv, QueueEvolves;
    ExecNext(es, m);
    ReachableInv(es[..m]);
    ConnectionEvolves(Exec(es[..m]), es[m], node);
    if Enabled(Exec(es[..m]), es[m]) {
      EveryQueue(Exec(es[..m]), es[m], node);
    }
  }

  /** A frame the ledger already knows never joins the stream of a node that does not reconnect. */
  lemma KnownNeverJoins(es: seq<Event>, m: nat, k: FrameKey)
    requires m < |es| && k in LedgerAt(es, m).entries && !Queued(es, m, k)
    requires es[m] != Connected(k.dest)
    ensures !Queued(es, m + 1, k)
  {
    hide Exec, KeyOn, InQueue;
    if Queued(es, m + 1, k) {
      RunQueue(es, m, k.dest);
      InQueueSteps(Exec(es[..m]).relay.connected[k.dest].stream.queue, k);
    }
  }

  /** A stream carries only frames the ledger knows. */
  lemma QueuedIsKnown(es: seq<Event>, m: nat, k: FrameKey)
    requires Queued(es, m, k)
    ensures k in LedgerAt(es, m).entries
  {
    hide Exec, KeyOn;
    LiveStreamsAreSound(es[..m]);
    assert QueueOk(LedgerAt(es, m), k.dest, Exec(es[..m]).relay.connected[k.dest].stream.queue);
  }

  // ---------- At the connect, and at the push ----------

  /** A frame pending when its node connects is replayed. */
  lemma ConnectCarries(es: seq<Event>, c: nat, k: FrameKey)
    requires c < |es| && es[c] == Connected(k.dest) && IsPending(LedgerAt(es, c), k)
    ensures Queued(es, c + 1, k)
  {
    hide Exec, Mailbox;
    var l := LedgerAt(es, c);
    ExecNext(es, c);
    ReachableInv(es[..c]);
    ReplayIsComplete(es[..c], k.dest);
    MailboxHolds(l, k);
  }

  lemma MailboxHolds(l: Ledger, k: FrameKey)
    requires FramesInv(l) && IsPending(l, k)
    ensures InQueue(Mailbox(l, k.dest), k)
  {
    hide MailboxOf, Trim;
    OwnedIffMailboxed(l, k);
  }

  lemma PushedConnections(s: System, e: Event, k: FrameKey)
    requires SysInv(s) && AcceptedKey(s, e) == Some(k)
    ensures e.TaskPublished? || e.FramePublished?
    ensures Next(s, e).relay.connected == Deliver(s.relay.connected, k.dest, PublishedFrame(e)).0
    ensures KeyOn(k.dest, PublishedFrame(e)) == k
  {
    hide LedgerInv, Owned, Window, Trim, Deliver, Admissible, RoomFor;
    if e.TaskPublished? {
      NewIdIsFresh(s, e.frameId, e.dest);
    } else {
      NewIdIsFresh(s, e.frame.frameId, e.dest);
      RouteLockedCases(s.relay, e.dest, e.frame, e.route);
    }
  }

  /** A push that leaves its node connected queues the frame exactly when the stream had room. */
  lemma PushCarriesIff(es: seq<Event>, i: nat, k: FrameKey)
    requires AcceptedAt(es, i, k) && k.dest in Exec(es[..i + 1]).relay.connected
    ensures Queued(es, i + 1, k) <==> HadRoom(es, i, k.dest)
  {
    hide Exec, AcceptedKey, Deliver, SysInv, Next, KeyOn;
    ExecNext(es, i);
    ReachableInv(es[..i]);
    var s := Exec(es[..i]);
    PushedConnections(s, es[i], k);
    var f := PublishedFrame(es[i]);
    DeliverQueues(s.relay.connected, k.dest, f);
    var before := s.relay.connected[k.dest].stream.queue;
    if HadRoom(es, i, k.dest) {
      assert (before + [f])[|before|] == f;
    } else if Queued(es, i + 1, k) {
      assert before + [] == before;
      assert Queued(es, i, k);
      QueuedIsKnown(es, i, k);
      RunAcceptance(es, i);
    }
  }

  // ---------- The exact condition ----------

  lemma {:induction false} MissedStaysMissed(es: seq<Event>, i: nat, m: nat, k: FrameKey)
    requires i <= m <= |es| && k in LedgerAt(es, i).entries && !Queued(es, i, k)
    requires forall n :: i <= n < m ==> es[n] != Connected(k.dest)
    ensures !Queued(es, m, k)
    decreases m
  {
    hide Exec, Queued;
    if i < m {
      MissedStaysMissed(es, i, m - 1, k);
      FateIsFinal(es, i, m - 1, k);
      KnownNeverJoins(es, m - 1, k);
    }
  }

  lemma NotQueuedBefore(es: seq<Event>, i: nat, m: nat, k: FrameKey)
    requires AcceptedAt(es, i, k) && m <= i
    ensures !Queued(es, m, k)
  {
    hide Exec, AcceptedKey, Queued;
    if Queued(es, m, k) {
      QueuedIsKnown(es, m, k);
      FateIsFinal(es, m, i, k);
      RunAcceptance(es, i);
    }
  }

  /**
   In every run, a pending frame of a connected node is on the node's stream, or was received from
   it, iff it was accepted before the node connected or its stream had room when it was accepted.
   A frame accepted while the stream was full stays in the mailbox until the node reconnects.
   */
  lemma StreamCarriesIff(es: seq<Event>, c: nat, i: nat, k: FrameKey)
    requires InstalledBy(es, k.dest, c) && AcceptedAt(es, i, k) && IsPending(Exec(es).relay.ledger, k)
    ensures Carried(es, c, k) <==> i < c || HadRoom(es, i, k.dest)
  {
    hide Exec, AcceptedKey, Queued, HadRoom, GenerationAt;
    RunAcceptance(es, i);
    assert es[..|es|] == es;
    if i < c {
      FateIsFinal(es, i + 1, c, k);
      FateIsFinal(es, c, |es|, k);
      ConnectCarries(es, c, k);
    } else {
      assert ConnectedUnder(es, i + 1, k.dest, GenerationAt(es, c));
      PushCarriesIff(es, i, k);
      if !HadRoom(es, i, k.dest) {
        forall m | c < m <= |es| ensures !Queued(es, m, k) {
          if m <= i {
            NotQueuedBefore(es, i, m, k);
          } else {
            MissedStaysMissed(es, i + 1, m, k);
          }
        }
      }
    }
  }

  // ---------- A run in which a pending frame is missed ----------

  const NODE: string := "n"

  function Id(n: nat): string {
    seq(n + 1, _ => 'a')
  }

  function ResultFrame(n: nat): RelayFrame {
    RelayFrame(Id(n), "", NODE, None, Some(""), None, None, None, None, None)
  }

  function Publish(n: nat): Event {
    FramePublished(n, ForAck, NODE, ResultFrame(n))
  }

  lemma IdIsTrimmed(n: nat)
    ensures Trim(Id(n)) == Id(n) != ""
  {
    assert [] + Id(n) + [] == Id(n);
    TrimPadded([], Id(n), []);
  }

  lemma NodeIsTrimmed()
    ensures Trim(NODE) == NODE != ""
  {
    assert [] + NODE + [] == NODE;
    TrimPadded([], NODE, []);
  }

  /** `n` settled frames still wait on the node's stream, and nothing is owned. */
  ghost predicate Stale(s: System, n: nat) {
    && SysInv(s) && Owned(s.relay.ledger) == {} && NODE in s.relay.connected
    && s.relay.connected[NODE].stream.open && s.relay.connected[NODE].stream.capacity == RELAY_STREAM_BUFFER
    && |s.relay.connected[NODE].stream.queue| == n
    && (forall p :: p in s.publishers ==> p < n)
    && (forall id :: id in s.issued ==> |id| <= n)
  }

  lemma PublishIsEnabled(s: System, n: nat)
    requires Stale(s, n)
    ensures Enabled(s, Publish(n))
    ensures var k := FrameKey(NODE, Id(n)); k !in s.relay.ledger.entries && k !in Window(s.relay.ledger)
  {
    hide Trim, FramesInv, TasksInv, PublisherOk, HeldKeys;
    IdIsTrimmed(n);
    assert Id(n) !in s.issued;
    NewIdIsFresh(s, Id(n), NODE);
    UnknownIsUntracked(s.relay.ledger, FrameKey(NODE, Id(n)));
  }

  lemma PublishAccepted(s: System, n: nat)
    requires Stale(s, n)
    ensures Enabled(s, Publish(n)) && AcceptedKey(s, Publish(n)) == Some(FrameKey(NODE, Id(n)))
    ensures var (connected, delivery) := Deliver(s.relay.connected, NODE, ResultFrame(n));
            RouteWaiting(s.relay, ForAck, NODE, ResultFrame(n))
            == (s.relay.(ledger := Accept(s.relay.ledger, FrameKey(NODE, Id(n)), ResultFrame(n), ForAck),
                         registered := s.relay.registered + {NODE}, connected := connected), delivery)
  {
    hide Trim, SysInv, Window, Enabled;
    IdIsTrimmed(n);
    PublishIsEnabled(s, n);
    assert ExactlyOnePayload(ResultFrame(n));
  }

  lemma AfterPublish(s: System, n: nat)
    requires Stale(s, n) && n < RELAY_STREAM_BUFFER
    ensures var t, k := Next(s, Publish(n)), FrameKey(NODE, Id(n));
            && SysInv(t) && t.relay.ledger == Accept(s.relay.ledger, k, ResultFrame(n), ForAck) && Owned(t.relay.ledger) == {k}
            && t.relay.connected == Deliver(s.relay.connected, NODE, ResultFrame(n)).0
            && t.publishers.Keys == s.publishers.Keys + {n} && t.issued == s.issued + {Id(n)}
  {
    hide Trim, SysInv, Window, Enabled, Deliver;
    PublishAccepted(s, n);
    StepKeeps(s, Publish(n));
  }

  lemma AckSettles(s: System, k: FrameKey)
    requires IsPending(s.relay.ledger, k) && s.relay.ledger.entries[k].route == ForAck && k !in Window(s.relay.ledger)
    requires Trim(k.dest) == k.dest != "" && Trim(k.id) == k.id != ""
    ensures Next(s, Acked(k.dest, k.id)) == s.(relay := s.relay.(ledger := Acknowledge(s.relay.ledger, k)))
  {
    hide Trim, Window;
  }

  lemma OneMoreStale(s: System, n: nat)
    requires Stale(s, n) && n < RELAY_STREAM_BUFFER
    ensures Stale(Next(Next(s, Publish(n)), Acked(NODE, Id(n))), n + 1)
  {
    hide Trim, SysInv, Window, Enabled, Next;
    var t, k := Next(s, Publish(n)), FrameKey(NODE, Id(n));
    PublishIsEnabled(s, n);
    AfterPublish(s, n);
    AcceptWindow(s.relay.ledger, k, ResultFrame(n), ForAck);
    IdIsTrimmed(n);
    NodeIsTrimmed();
    AckSettles(t, k);
    AckKeeps(t, k);
    assert Owned(Acknowledge(t.relay.ledger, k)) == {};
  }

  lemma AckKeeps(s: System, k: FrameKey)
    requires SysInv(s)
    ensures SysInv(Next(s, Acked(k.dest, k.id)))
  {
    hide SysInv;
    StepKeeps(s, Acked(k.dest, k.id));
  }

  lemma AcceptWindow(l: Ledger, k: FrameKey, f: RelayFrame, route: Route)
    ensures Window(Accept(l, k, f, route)) == Window(l)
  {
  }

  lemma {:induction false} StaleStream(n: nat) returns (es: seq<Event>)
    requires n <= RELAY_STREAM_BUFFER
    ensures Stale(Exec(es), n)
  {
    hide Stale, Next;
    if n == 0 {
      es := [Connected(NODE)];
      assert es[..0] == [];
      FreshStream();
    } else {
      var rest := StaleStream(n - 1);
      var mid := rest + [Publish(n - 1)];
      es := mid + [Acked(NODE, Id(n - 1))];
      assert mid[..|rest|] == rest && es[..|mid|] == mid;
      OneMoreStale(Exec(rest), n - 1);
    }
  }

  lemma FreshStream()
    ensures Stale(Next(Start, Connected(NODE)), 0)
  {
    hide SysInv;
    StartInv();
    StepKeeps(Start, Connected(NODE));
    assert Owned(Empty) == {};
  }

  /** A connected, open stream filled with settled frames: the next frame is pending, and its node is never sent it. */
  lemma FullStreamMisses() returns (es: seq<Event>, c: nat, k: FrameKey)
    ensures InstalledBy(es, k.dest, c) && IsPending(Exec(es).relay.ledger, k)
    ensures k.dest in Exec(es).relay.connected && Exec(es).relay.connected[k.dest].stream.open && !Carried(es, c, k)
  {
    hide Exec, Trim, SysInv, InstalledBy, IsPending, AcceptedKey, Carried, Enabled;
    var rest := StaleStream(RELAY_STREAM_BUFFER);
    var s := Exec(rest);
    var e := Publish(RELAY_STREAM_BUFFER);
    var i := |rest|;
    es, k := rest + [e], FrameKey(NODE, Id(RELAY_STREAM_BUFFER));
    assert es[..i] == rest && es[..i + 1] == es;
    ExecNext(es, i);
    PublishAccepted(s, RELAY_STREAM_BUFFER);
    RunAcceptance(es, i);
    c := Provenance(es, NODE);
    assert c < i by { LastIsNotConnect(es, c); }
    StreamCarriesIff(es, c, i, k);
  }

  lemma LastIsNotConnect(es: seq<Event>, c: nat)
    requires es != [] && InstalledBy(es, NODE, c) && !es[|es| - 1].Connected?
    ensures c < |es| - 1
  {
    hide Exec, GenerationAt;
  }
}
