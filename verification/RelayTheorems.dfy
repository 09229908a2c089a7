/** What holds over every run of the relay with its handlers. */
module RelayTheorems {
  import opened Basics
  import opened Text
  import opened RelayFrames
  import opened Ledger
  import opened TaskTable
  import opened MailboxDepth
  import opened RelaySpec
  import opened RelaySystem

  // ---------- Runs ----------

  /** An event that is not enabled does nothing, so every list of events is a run. */
  ghost function Next(s: System, e: Event): System {
    if Enabled(s, e) then Step(s, e) else s
  }

  ghost function Exec(es: seq<Event>): System {
    if es == [] then Start else Next(Exec(es[..|es| - 1]), es[|es| - 1])
  }

  ghost function LedgerAt(es: seq<Event>, i: nat): Ledger
    requires i <= |es|
  {
    Exec(es[..i]).relay.ledger
  }

  lemma ExecNext(es: seq<Event>, i: nat)
    requires i < |es|
    ensures Exec(es[..i + 1]) == Next(Exec(es[..i]), es[i])
  {
    assert es[..i + 1][..i] == es[..i];
  }

  /** Every reachable state satisfies the system invariant. */
  lemma {:induction false} ReachableInv(es: seq<Event>)
    ensures SysInv(Exec(es))
  {
    hide SysInv, Enabled, Step;
    if es == [] {
      StartInv();
    } else {
      var s, e := Exec(es[..|es| - 1]), es[|es| - 1];
      ReachableInv(es[..|es| - 1]);
      if Enabled(s, e) {
        StepKeeps(s, e);
      }
    }
  }

  lemma StartInv()
    ensures SysInv(Start)
  {
  }

  // ---------- Leak freedom ----------

  /** Frame `k` has left ownership, every waiter map and its mailbox. */
  ghost predicate Released(l: Ledger, k: FrameKey) {
    && k !in Owned(l)
    && (forall r :: k !in Waiting(l, r))
    && (forall i :: 0 <= i < |Mailbox(l, k.dest)| ==> Trim(Mailbox(l, k.dest)[i].frameId) != k.id)
  }

  lemma SettledIsReleased(l: Ledger, k: FrameKey)
    requires FramesInv(l) && !IsPending(l, k)
    ensures Released(l, k)
  {
    hide FramesInv, MailboxOf, Trim;
    forall i | 0 <= i < |Mailbox(l, k.dest)| ensures Trim(Mailbox(l, k.dest)[i].frameId) != k.id {
      MailboxedIsPending(l, k.dest, i);
    }
  }

  /**
   In every reachable state an owned frame belongs to a published task that is not yet acknowledged
   or to a publisher whose guard is armed, and nothing is left of an ended publisher's frame.
   */
  lemma LeakFreedom(es: seq<Event>)
    ensures var s := Exec(es);
            var l := s.relay.ledger;
            && (forall k :: k in Owned(l) ==>
                  || Retained(k, l.entries, l.tasks)
                  || exists p :: p in s.publishers && s.publishers[p].armed && s.publishers[p].key == k)
            && (forall p :: p in s.publishers && !s.publishers[p].armed ==> Released(l, s.publishers[p].key))
  {
    hide FramesInv, Released;
    ReachableInv(es);
    var s := Exec(es);
    var l := s.relay.ledger;
    forall k | k in Owned(l) && !Retained(k, l.entries, l.tasks)
      ensures exists p :: p in s.publishers && s.publishers[p].armed && s.publishers[p].key == k
    {
      var p :| p in s.publishers && s.publishers[p].key == k;
      assert PublisherOk(l, s.publishers[p]);
    }
    forall p | p in s.publishers && !s.publishers[p].armed ensures Released(l, s.publishers[p].key) {
      assert PublisherOk(l, s.publishers[p]);
      SettledIsReleased(l, s.publishers[p].key);
    }
  }

  /** However a publisher ends, the ledger is the one with its frame given up, if it was still pending. */
  lemma EndAbandons(s: System, e: Event)
    requires SysInv(s) && Enabled(s, e) && (e.Observed? || e.Dropped?)
    ensures Next(s, e).relay.ledger == AbandonAll(s.relay.ledger, {s.publishers[e.pid].key})
  {
    hide LedgerInv;
    var l, k := s.relay.ledger, s.publishers[e.pid].key;
    if !IsPending(l, k) {
      assert AbandonAll(l, {k}).entries == l.entries;
    }
  }

  lemma AbandonReleases(l: Ledger, k: FrameKey)
    requires FramesInv(l) && FramesInv(AbandonAll(l, {k}))
    ensures var m := AbandonAll(l, {k});
            && Released(m, k)
            && (forall j :: j in l.entries && j != k ==> j in m.entries && m.entries[j] == l.entries[j])
            && Owned(m) == Owned(l) - {k}
            && Mailbox(m, k.dest) == Keep(Mailbox(l, k.dest), OtherId(k.id))
            && (forall d :: d != k.dest ==> Mailbox(m, d) == Mailbox(l, d))
  {
    hide FramesInv, Released, MailboxOf, Keep;
    SettledIsReleased(AbandonAll(l, {k}), k);
    AbandonProjects(l, {k});
    AbandonOneMailbox(l, k);
  }

  /** Ending a publisher, by observation, timeout or cancellation, releases its frame and moves no other key. */
  lemma EndReleasesOnlyItsFrame(es: seq<Event>, e: Event)
    requires Enabled(Exec(es), e) && (e.Observed? || e.Dropped?)
    ensures var s := Exec(es);
            var k := s.publishers[e.pid].key;
            var l, m := s.relay.ledger, Next(s, e).relay.ledger;
            && Released(m, k)
            && m.order == l.order && m.acks == l.acks && m.tasks == l.tasks
            && (forall j :: j in l.entries && j != k ==> j in m.entries && m.entries[j] == l.entries[j])
            && Owned(m) == Owned(l) - {k}
            && Mailbox(m, k.dest) == Keep(Mailbox(l, k.dest), OtherId(k.id))
            && (forall d :: d != k.dest ==> Mailbox(m, d) == Mailbox(l, d))
            && Next(s, e).publishers == s.publishers[e.pid := s.publishers[e.pid].(armed := false)]
  {
    hide FramesInv, TasksInv, Released, MailboxOf, Keep, RelayStep, Owned, Exec;
    ReachableInv(es);
    StepKeeps(Exec(es), e);
    EndAbandons(Exec(es), e);
    AbandonReleases(Exec(es).relay.ledger, Exec(es).publishers[e.pid].key);
  }

  // ---------- Conservation ----------

  ghost function CompletedKeys(l: Ledger): set<FrameKey> {
    set k | k in l.entries && l.entries[k].fate.Completed?
  }

  ghost function AbandonedKeys(l: Ledger): set<FrameKey> {
    set k | k in l.entries && l.entries[k].fate.Abandoned?
  }

  lemma {:induction false} NoDupSize<T>(s: seq<T>)
    requires NoDup(s)
    ensures |set x | x in s| == |s|
  {
    if s != [] {
      var n := |s| - 1;
      NoDupSize(s[..n]);
      assert (set x | x in s) == (set x | x in s[..n]) + {s[n]};
    }
  }

  /** Mailboxed frames are exactly the owned ones: a key is pending iff its mailbox holds its frame. */
  lemma OwnedIffMailboxed(l: Ledger, k: FrameKey)
    requires FramesInv(l)
    ensures k in Owned(l) <==> exists i :: 0 <= i < |Mailbox(l, k.dest)| && Trim(Mailbox(l, k.dest)[i].frameId) == k.id
  {
    if k in Owned(l) {
      MailboxComplete(l.order, l.entries, k);
      var i :| 0 <= i < |Mailbox(l, k.dest)| && Mailbox(l, k.dest)[i] == l.entries[k].frame;
      assert EntryOk(k, l.entries[k]);
    } else {
      SettledIsReleased(l, k);
    }
  }

  lemma Partition(l: Ledger)
    requires FramesInv(l)
    ensures |l.order| == |Owned(l)| + |l.acks| + |CompletedKeys(l)| + |AbandonedKeys(l)|
  {
    hide EntriesInv, NoDup;
    NoDupSize(l.order);
    NoDupSize(l.acks);
    var acked := set k | k in l.entries && l.entries[k].fate.Acknowledged?;
    assert (set k | k in l.acks) == acked;
    assert (set k | k in l.order) == l.entries.Keys;
    FatesPartition(l);
  }

  lemma FatesPartition(l: Ledger)
    ensures |l.entries.Keys| == |Owned(l)| + |set k | k in l.entries && l.entries[k].fate.Acknowledged?|
                                + |CompletedKeys(l)| + |AbandonedKeys(l)|
  {
    var acked := set k | k in l.entries && l.entries[k].fate.Acknowledged?;
    var settled := acked + CompletedKeys(l);
    assert l.entries.Keys == (Owned(l) + settled) + AbandonedKeys(l);
  }

  /** One event accounts for every change, at every point of every run. */
  lemma RunStep(es: seq<Event>, i: nat)
    requires i < |es|
    ensures Enabled(Exec(es[..i]), es[i]) ==> LedgerStep(Exec(es[..i]), es[i], LedgerAt(es, i + 1))
    ensures !Enabled(Exec(es[..i]), es[i]) ==> LedgerAt(es, i + 1) == LedgerAt(es, i)
  {
    hide SysInv, LedgerStep, Enabled, RelayStep;
    ExecNext(es, i);
    ReachableInv(es[..i]);
    if Enabled(Exec(es[..i]), es[i]) {
      EveryStep(Exec(es[..i]), es[i]);
    }
  }

  /** A frame leaves `Pending` only through its own destination and its own kind of settlement, or its publisher's end, or a Fleet purge. */
  lemma SettlementExplained(es: seq<Event>, i: nat, k: FrameKey)
    requires i < |es| && IsPending(LedgerAt(es, i), k) && !IsPending(LedgerAt(es, i + 1), k)
    ensures k in LedgerAt(es, i + 1).entries
    ensures Enabled(Exec(es[..i]), es[i])
    ensures SettledBy(Exec(es[..i]), es[i], k, LedgerAt(es, i + 1).entries[k].fate)
  {
    hide SettledBy, Enabled, LedgerInv, Exec;
    RunStep(es, i);
    if Enabled(Exec(es[..i]), es[i]) {
      assert EntryEvolves(Exec(es[..i]), es[i], LedgerAt(es, i + 1), k);
    }
  }

  /** A frame is never forgotten, keeps its content, and a final fate stays: a waiter fires at most once. */
  lemma {:induction false} FateIsFinal(es: seq<Event>, i: nat, j: nat, k: FrameKey)
    requires i <= j <= |es| && k in LedgerAt(es, i).entries
    ensures k in LedgerAt(es, j).entries
    ensures LedgerAt(es, j).entries[k] == LedgerAt(es, i).entries[k].(fate := LedgerAt(es, j).entries[k].fate)
    ensures !IsPending(LedgerAt(es, i), k) ==> LedgerAt(es, j).entries[k] == LedgerAt(es, i).entries[k]
    decreases j
  {
    hide SettledBy, Enabled, LedgerInv, Exec;
    if i < j {
      FateIsFinal(es, i, j - 1, k);
      RunStep(es, j - 1);
      if Enabled(Exec(es[..j - 1]), es[j - 1]) {
        assert EntryEvolves(Exec(es[..j - 1]), es[j - 1], LedgerAt(es, j), k);
      }
    }
  }
}
