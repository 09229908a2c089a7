/** Conservation over whole runs: the answers the relay gave account for every frame it holds. */
module RelayConservation {
  import opened Basics
  import opened Text
  import opened RelayFrames
  import opened Ledger
  import opened TaskTable
  import opened MailboxDepth
  import opened RelaySpec
  import opened RelaySystem
  import opened RelayTheorems

  // ---------- Acceptance, read off the answers ----------

  /** The key of the frame an event is answered for with New, Delivered or Mailboxed, if it is. */
  ghost function AcceptedKey(s: System, e: Event): Option<FrameKey> {
    if !Enabled(s, e) then None
    else match e
      case TaskPublished(_, dest, _, _, _, frameId, _) =>
        if PublishHandler(s.relay, e).1.New? then Some(FrameKey(dest, frameId)) else None
      case FramePublished(_, route, dest, frame) =>
        if Accepted(RouteWaiting(s.relay, route, dest, frame).1) then Some(FrameKey(dest, Trim(frame.frameId))) else None
      case _ => None
  }

  function PublishedFrame(e: Event): RelayFrame
    requires e.TaskPublished? || e.FramePublished?
  {
    if e.TaskPublished? then TaskFrameOf(e) else e.frame
  }

  ghost predicate AcceptedAt(es: seq<Event>, i: nat, k: FrameKey) {
    i < |es| && AcceptedKey(Exec(es[..i]), es[i]) == Some(k)
  }

  /** The keys accepted in a run, in order. */
  ghost function AcceptedKeys(es: seq<Event>): seq<FrameKey> {
    if es == [] then []
    else
      var n := |es| - 1;
      var k := AcceptedKey(Exec(es[..n]), es[n]);
      AcceptedKeys(es[..n]) + if k.Some? then [k.value] else []
  }

  lemma TaskAccepted(s: System, e: Event)
    requires SysInv(s) && e.TaskPublished? && AcceptedKey(s, e).Some?
    ensures var l, m, k := s.relay.ledger, Next(s, e).relay.ledger, AcceptedKey(s, e).value;
            k !in l.entries && m.order == l.order + [k] && m.entries == l.entries[k := Entry(PublishedFrame(e), ForTask(TaskKeyOf(e)), Pending)]
  {
    hide LedgerInv, Owned, Window, Trim, Deliver, RoomFor;
    NewIdIsFresh(s, e.frameId, e.dest);
  }

  lemma FrameAccepted(s: System, e: Event)
    requires SysInv(s) && e.FramePublished? && AcceptedKey(s, e).Some?
    ensures var l, m, k := s.relay.ledger, Next(s, e).relay.ledger, AcceptedKey(s, e).value;
            k !in l.entries && m.order == l.order + [k] && m.entries == l.entries[k := Entry(PublishedFrame(e), e.route, Pending)]
  {
    hide LedgerInv, Owned, Window, Trim, Deliver, Admissible;
    NewIdIsFresh(s, e.frame.frameId, e.dest);
    RouteLockedCases(s.relay, e.dest, e.frame, e.route);
  }

  lemma UnpublishedOrder(s: System, e: Event)
    requires !e.TaskPublished? && !e.FramePublished?
    ensures Next(s, e).relay.ledger.order == s.relay.ledger.order
  {
    hide Owned, Window, Trim, Waiting, Mailbox, IsPending;
  }

  /** An event that is not answered so leaves the set of frames and their order alone. */
  lemma NothingAccepted(s: System, e: Event)
    requires SysInv(s) && AcceptedKey(s, e).None?
    ensures var l, m := s.relay.ledger, Next(s, e).relay.ledger;
            m.order == l.order && m.entries.Keys == l.entries.Keys
  {
    hide LedgerInv, Owned, Window, Trim, Deliver, Admissible, RoomFor, Waiting, Mailbox, SettledBy;
    if Enabled(s, e) {
      if e.TaskPublished? {
        assert Next(s, e).relay == s.relay;
      } else if e.FramePublished? {
        NewIdIsFresh(s, e.frame.frameId, e.dest);
        RouteLockedCases(s.relay, e.dest, e.frame, e.route);
        assert Next(s, e).relay == s.relay;
      } else {
        UnpublishedOrder(s, e);
        UnpublishedKeys(s, e);
      }
    }
  }

  lemma UnpublishedKeys(s: System, e: Event)
    requires SysInv(s) && Enabled(s, e) && !e.TaskPublished? && !e.FramePublished?
    ensures Next(s, e).relay.ledger.entries.Keys == s.relay.ledger.entries.Keys
  {
    hide RelayStep, SysInv, SettledBy, LedgerInv, Enabled;
    EveryStep(s, e);
    var l, m := s.relay.ledger, RelayStep(s, e).ledger;
    forall k | k in l.entries ensures k in m.entries {
      assert EntryEvolves(s, e, m, k);
    }
  }

  /** One event puts exactly the key it was answered for on the ledger, with the frame it carried. */
  lemma AcceptanceStep(s: System, e: Event)
    requires SysInv(s)
    ensures var l, m, a := s.relay.ledger, Next(s, e).relay.ledger, AcceptedKey(s, e);
            && m.order == l.order + (if a.Some? then [a.value] else [])
            && m.entries.Keys == l.entries.Keys + (if a.Some? then {a.value} else {})
            && (a.Some? ==> a.value !in l.entries && IsPending(m, a.value)
                            && (e.TaskPublished? || e.FramePublished?) && m.entries[a.value].frame == PublishedFrame(e))
  {
    hide SysInv, Next, Enabled, PublishHandler, RouteWaiting;
    if AcceptedKey(s, e).None? {
      NothingAccepted(s, e);
    } else if e.TaskPublished? {
      TaskAccepted(s, e);
    } else {
      FrameAccepted(s, e);
    }
  }

  /** The relay's acceptance order is the list of keys it answered for, in every run. */
  lemma {:induction false} OrderIsWhatWasAccepted(es: seq<Event>)
    ensures Exec(es).relay.ledger.order == AcceptedKeys(es)
  {
    hide SysInv, Next, AcceptedKey;
    if es != [] {
      var n := |es| - 1;
      OrderIsWhatWasAccepted(es[..n]);
      ReachableInv(es[..n]);
      AcceptanceStep(Exec(es[..n]), es[n]);
    }
  }

  lemma RunAcceptance(es: seq<Event>, i: nat)
    requires i < |es|
    ensures var l, m, a := LedgerAt(es, i), LedgerAt(es, i + 1), AcceptedKey(Exec(es[..i]), es[i]);
            && m.entries.Keys == l.entries.Keys + (if a.Some? then {a.value} else {})
            && (a.Some? ==> a.value !in l.entries && IsPending(m, a.value)
                            && (es[i].TaskPublished? || es[i].FramePublished?) && m.entries[a.value].frame == PublishedFrame(es[i]))
  {
    hide SysInv, Next, AcceptedKey, Exec;
    ExecNext(es, i);
    ReachableInv(es[..i]);
    AcceptanceStep(Exec(es[..i]), es[i]);
  }

  /** A key is on the ledger at point `j` iff some earlier event was answered for it. */
  lemma {:induction false} OnLedgerIffAccepted(es: seq<Event>, j: nat, k: FrameKey)
    requires j <= |es|
    ensures k in LedgerAt(es, j).entries <==> exists i :: 0 <= i < j && AcceptedAt(es, i, k)
  {
    hide AcceptedKey, Next;
    if j > 0 {
      hide Exec;
      OnLedgerIffAccepted(es, j - 1, k);
      RunAcceptance(es, j - 1);
      assert AcceptedAt(es, j - 1, k) <==> AcceptedKey(Exec(es[..j - 1]), es[j - 1]) == Some(k);
    }
  }

  /** ... and no two events were. */
  lemma AcceptedOnce(es: seq<Event>, i: nat, j: nat, k: FrameKey)
    requires AcceptedAt(es, i, k) && AcceptedAt(es, j, k)
    ensures i == j
  {
    hide AcceptedKey, Exec;
    if i != j {
      var first, second := if i < j then i else j, if i < j then j else i;
      RunAcceptance(es, first);
      RunAcceptance(es, second);
      FateIsFinal(es, first + 1, second, k);
    }
  }

  // ---------- What became of each accepted frame ----------

  ghost predicate InMailbox(l: Ledger, k: FrameKey, f: RelayFrame) {
    Trim(f.frameId) == k.id && f in Mailbox(l, k.dest)
  }

  /** The event at `m` settles the frame: `SettlementExplained` names the only ways it can. */
  ghost predicate SettlesAt(es: seq<Event>, m: nat, k: FrameKey) {
    m < |es| && IsPending(LedgerAt(es, m), k) && !IsPending(LedgerAt(es, m + 1), k)
  }

  lemma PendingIffMailboxed(l: Ledger, k: FrameKey)
    requires FramesInv(l) && k in l.entries
    ensures IsPending(l, k) <==> InMailbox(l, k, l.entries[k].frame)
  {
    hide MailboxOf, Trim;
    var f := l.entries[k].frame;
    assert EntryOk(k, l.entries[k]);
    if IsPending(l, k) {
      MailboxComplete(l.order, l.entries, k);
    }
    if f in Mailbox(l, k.dest) {
      var i :| 0 <= i < |Mailbox(l, k.dest)| && Mailbox(l, k.dest)[i] == f;
      MailboxedIsPending(l, k.dest, i);
    }
  }

  lemma {:induction false} SettledSomewhere(es: seq<Event>, i: nat, j: nat, k: FrameKey) returns (m: nat)
    requires i <= j <= |es| && IsPending(LedgerAt(es, i), k) && !IsPending(LedgerAt(es, j), k)
    ensures i <= m < j && SettlesAt(es, m, k)
    decreases j
  {
    hide Exec;
    if IsPending(LedgerAt(es, j - 1), k) {
      m := j - 1;
    } else {
      m := SettledSomewhere(es, i, j - 1, k);
    }
  }

  lemma SettledOnce(es: seq<Event>, m: nat, n: nat, k: FrameKey)
    requires SettlesAt(es, m, k) && SettlesAt(es, n, k)
    ensures m == n
  {
    hide Exec;
    if m < n {
      FateIsFinal(es, m, m + 1, k);
      FateIsFinal(es, m + 1, n, k);
    }
    if n < m {
      FateIsFinal(es, n, n + 1, k);
      FateIsFinal(es, n + 1, m, k);
    }
  }

  lemma SettledStays(es: seq<Event>, m: nat, k: FrameKey)
    requires SettlesAt(es, m, k)
    ensures k in LedgerAt(es, m + 1).entries && k in LedgerAt(es, |es|).entries && !IsPending(LedgerAt(es, |es|), k)
    ensures LedgerAt(es, |es|).entries[k] == LedgerAt(es, m + 1).entries[k]
  {
    hide Exec;
    FateIsFinal(es, m, m + 1, k);
    FateIsFinal(es, m + 1, |es|, k);
  }

  /**
   In every run an accepted frame either sits in its destination's mailbox, exactly as it was
   published, and nothing has settled it, or it has left the mailbox and exactly one event of the run
   settled it.
   */
  lemma ExactlyOneFate(es: seq<Event>, i: nat, k: FrameKey)
    requires AcceptedAt(es, i, k)
    ensures es[i].TaskPublished? || es[i].FramePublished?
    ensures InMailbox(Exec(es).relay.ledger, k, PublishedFrame(es[i])) <==> forall m :: !SettlesAt(es, m, k)
    ensures forall m, n :: SettlesAt(es, m, k) && SettlesAt(es, n, k) ==> m == n
  {
    hide Exec, AcceptedKey, FramesInv, TasksInv, InMailbox, Mailbox;
    RunAcceptance(es, i);
    FateIsFinal(es, i + 1, |es|, k);
    assert es[..|es|] == es;
    ReachableInv(es);
    PendingIffMailboxed(Exec(es).relay.ledger, k);
    if !IsPending(LedgerAt(es, |es|), k) {
      var m := SettledSomewhere(es, i + 1, |es|, k);
    }
    forall m | SettlesAt(es, m, k) ensures !IsPending(LedgerAt(es, |es|), k) {
      SettledStays(es, m, k);
    }
    forall m, n | SettlesAt(es, m, k) && SettlesAt(es, n, k) ensures m == n {
      SettledOnce(es, m, n, k);
    }
  }

  /**
   Conservation. In every run the number of frames the relay answered for is the depth of all its
   mailboxes together plus the frames acknowledged, completed and abandoned.
   */
  lemma Conservation(es: seq<Event>, nodes: seq<string>)
    requires NoDup(nodes) && forall k :: k in AcceptedKeys(es) ==> k.dest in nodes
    ensures var l := Exec(es).relay.ledger;
            |AcceptedKeys(es)| == TotalDepth(l.order, l.entries, nodes) + |l.acks| + |CompletedKeys(l)| + |AbandonedKeys(l)|
  {
    hide Exec, AcceptedKeys, EntriesInv, AcksInv, TotalDepth, TasksInv, CompletedKeys, AbandonedKeys;
    ReachableInv(es);
    var l := Exec(es).relay.ledger;
    OrderIsWhatWasAccepted(es);
    assert forall k :: k in Owned(l) ==> k in l.order;
    TotalDepthIsOwned(l, nodes);
    Partition(l);
  }
}
