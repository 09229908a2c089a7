/** Counting mailboxed frames against the ownership table. */
module MailboxDepth {
  import opened RelayFrames
  import opened Ledger

  ghost function PendingIn(order: seq<FrameKey>, entries: map<FrameKey, Entry>): set<FrameKey> {
    set k | k in order && k in entries && entries[k].fate.Pending?
  }

  /** Depth of all the mailboxes of `nodes` together. */
  ghost function TotalDepth(order: seq<FrameKey>, entries: map<FrameKey, Entry>, nodes: seq<string>): nat {
    if nodes == [] then 0
    else TotalDepth(order, entries, nodes[..|nodes| - 1]) + |MailboxOf(order, entries, nodes[|nodes| - 1])|
  }

  lemma {:induction false} TotalDepthSnoc(order: seq<FrameKey>, entries: map<FrameKey, Entry>, nodes: seq<string>)
    requires order != [] && NoDup(nodes)
    ensures var k := order[|order| - 1];
            TotalDepth(order, entries, nodes) == TotalDepth(order[..|order| - 1], entries, nodes)
              + if k in entries && entries[k].fate.Pending? && k.dest in nodes then 1 else 0
  {
    if nodes != [] {
      var n := |nodes| - 1;
      TotalDepthSnoc(order, entries, nodes[..n]);
      assert nodes == nodes[..n] + [nodes[n]];
    }
  }

  lemma PendingInSnoc(order: seq<FrameKey>, entries: map<FrameKey, Entry>)
    requires order != [] && NoDup(order)
    ensures var n := |order| - 1;
            var k := order[n];
            && NoDup(order[..n])
            && |PendingIn(order, entries)| == |PendingIn(order[..n], entries)|
                 + if k in entries && entries[k].fate.Pending? then 1 else 0
  {
    var n := |order| - 1;
    var k := order[n];
    var rest := PendingIn(order[..n], entries);
    assert order == order[..n] + [k];
    assert PendingIn(order, entries) == if k in entries && entries[k].fate.Pending? then rest + {k} else rest;
    assert k !in order[..n];
  }

  lemma {:induction false} TotalDepthIsPending(order: seq<FrameKey>, entries: map<FrameKey, Entry>, nodes: seq<string>)
    requires NoDup(order) && NoDup(nodes)
    requires forall k :: k in order && k in entries && entries[k].fate.Pending? ==> k.dest in nodes
    ensures TotalDepth(order, entries, nodes) == |PendingIn(order, entries)|
  {
    if order == [] {
      EmptyDepth(entries, nodes);
    } else {
      PendingInSnoc(order, entries);
      TotalDepthSnoc(order, entries, nodes);
      TotalDepthIsPending(order[..|order| - 1], entries, nodes);
    }
  }

  lemma {:induction false} EmptyDepth(entries: map<FrameKey, Entry>, nodes: seq<string>)
    ensures TotalDepth([], entries, nodes) == 0
  {
    if nodes != [] {
      EmptyDepth(entries, nodes[..|nodes| - 1]);
    }
  }

  /**
   Total mailbox depth, over any list of distinct nodes that covers the destinations, is the size of
   the ownership table, and so never exceeds its bound.
   */
  lemma TotalDepthIsOwned(l: Ledger, nodes: seq<string>)
    requires FramesInv(l) && NoDup(nodes)
    requires forall k :: k in Owned(l) ==> k.dest in nodes
    ensures TotalDepth(l.order, l.entries, nodes) == |Owned(l)| <= MAX_TRACKED_FRAMES
  {
    assert PendingIn(l.order, l.entries) == Owned(l);
    TotalDepthIsPending(l.order, l.entries, nodes);
  }

  lemma {:induction false} MailboxAtMostPending(order: seq<FrameKey>, entries: map<FrameKey, Entry>, d: string)
    requires NoDup(order)
    ensures |MailboxOf(order, entries, d)| <= |PendingIn(order, entries)|
  {
    if order != [] {
      PendingInSnoc(order, entries);
      MailboxAtMostPending(order[..|order| - 1], entries, d);
    }
  }

  /** One mailbox never outgrows the ownership table: its own capacity test cannot be the one that rejects. */
  lemma MailboxAtMostOwned(l: Ledger, d: string)
    requires FramesInv(l)
    ensures |Mailbox(l, d)| <= |Owned(l)|
  {
    assert PendingIn(l.order, l.entries) == Owned(l);
    MailboxAtMostPending(l.order, l.entries, d);
  }
}
