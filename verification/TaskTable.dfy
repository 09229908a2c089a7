/** The retained task identities of a ledger: eviction order, counting, and what keeps the table coherent. */
module TaskTable {
  import opened RelayFrames
  import opened Ledger

  // ---------- Cardinality ----------

  lemma {:induction false} ImageSize(tasks: map<TaskKey, TaskRecord>, keys: set<TaskKey>)
    requires keys <= tasks.Keys
    requires forall a, b :: a in keys && b in keys && TaskFrame(a, tasks[a]) == TaskFrame(b, tasks[b]) ==> a == b
    ensures |set tk | tk in keys :: TaskFrame(tk, tasks[tk])| == |keys|
  {
    if keys != {} {
      var x :| x in keys;
      var rest := keys - {x};
      ImageSize(tasks, rest);
      assert (set tk | tk in keys :: TaskFrame(tk, tasks[tk]))
          == (set tk | tk in rest :: TaskFrame(tk, tasks[tk])) + {TaskFrame(x, tasks[x])};
    }
  }

  lemma SubsetSize<T>(a: set<T>, b: set<T>)
    requires a <= b
    ensures |a| <= |b|
  {
    assert b == a + (b - a);
  }

  /** Two retained identities never share a frame: the frame names its identity. */
  lemma TaskFramesDistinct(l: Ledger, a: TaskKey, b: TaskKey)
    requires TasksInv(l) && a in l.tasks && b in l.tasks
    requires TaskFrame(a, l.tasks[a]) == TaskFrame(b, l.tasks[b])
    ensures a == b
  {
  }

  // ---------- The eviction queue ----------

  lemma {:induction false} EvictableMember(acks: seq<FrameKey>, entries: map<FrameKey, Entry>, tasks: map<TaskKey, TaskRecord>, tk: TaskKey)
    ensures tk in EvictableOf(acks, entries, tasks)
       <==> tk in tasks && TaskFrame(tk, tasks[tk]) in acks && Retained(TaskFrame(tk, tasks[tk]), entries, tasks)
            && entries[TaskFrame(tk, tasks[tk])].route.task == tk
  {
    if acks != [] {
      EvictableMember(acks[..|acks| - 1], entries, tasks, tk);
      assert acks == acks[..|acks| - 1] + [acks[|acks| - 1]];
    }
  }

  /** The queue lists exactly the acknowledged identities. */
  lemma EvictableExact(l: Ledger, tk: TaskKey)
    requires LedgerInv(l)
    ensures tk in Evictable(l)
       <==> tk in l.tasks && l.entries[TaskFrame(tk, l.tasks[tk])].fate.Acknowledged?
  {
    EvictableMember(l.acks, l.entries, l.tasks, tk);
  }

  /** ... and lists none of them twice. */
  lemma {:induction false} EvictableNoDup(acks: seq<FrameKey>, entries: map<FrameKey, Entry>, tasks: map<TaskKey, TaskRecord>)
    requires NoDup(acks)
    ensures NoDup(EvictableOf(acks, entries, tasks))
  {
    if acks != [] {
      var n := |acks| - 1;
      EvictableNoDup(acks[..n], entries, tasks);
      if Retained(acks[n], entries, tasks) {
        EvictableMember(acks[..n], entries, tasks, entries[acks[n]].route.task);
      }
    }
  }

  /** The queue looks only at routes and at the table. */
  lemma {:induction false} EvictableFrame(
      acks: seq<FrameKey>, e1: map<FrameKey, Entry>, t1: map<TaskKey, TaskRecord>,
      e2: map<FrameKey, Entry>, t2: map<TaskKey, TaskRecord>)
    requires forall k :: k in acks ==> (Retained(k, e1, t1) <==> Retained(k, e2, t2))
    requires forall k :: k in acks && Retained(k, e1, t1) && Retained(k, e2, t2) ==> e1[k].route == e2[k].route
    ensures EvictableOf(acks, e1, t1) == EvictableOf(acks, e2, t2)
  {
    if acks != [] {
      EvictableFrame(acks[..|acks| - 1], e1, t1, e2, t2);
    }
  }

  /** Evicting the head pops the queue. */
  lemma {:induction false} EvictHead(acks: seq<FrameKey>, entries: map<FrameKey, Entry>, tasks: map<TaskKey, TaskRecord>)
    requires NoDup(acks) && EvictableOf(acks, entries, tasks) != []
    ensures var q := EvictableOf(acks, entries, tasks);
            EvictableOf(acks, entries, tasks - {q[0]}) == q[1..]
  {
    var n := |acks| - 1;
    var front := EvictableOf(acks[..n], entries, tasks);
    var q := EvictableOf(acks, entries, tasks);
    if front == [] {
      forall k | k in acks[..n] ensures !Retained(k, entries, tasks) {
        if Retained(k, entries, tasks) {
          EvictableMember(acks[..n], entries, tasks, entries[k].route.task);
        }
      }
      EvictableFrame(acks[..n], entries, tasks, entries, tasks - {q[0]});
    } else {
      EvictHead(acks[..n], entries, tasks);
      EvictableNoDup(acks, entries, tasks);
      if Retained(acks[n], entries, tasks) {
        assert q[|front|] == entries[acks[n]].route.task != q[0];
      }
    }
  }

  /** The head of the queue is the retained identity that was acknowledged first. */
  lemma {:induction false} HeadIsOldest(acks: seq<FrameKey>, entries: map<FrameKey, Entry>, tasks: map<TaskKey, TaskRecord>, a: nat, b: nat)
    requires NoDup(acks) && a < |acks| && b < |acks| && EvictableOf(acks, entries, tasks) != []
    requires Retained(acks[a], entries, tasks) && entries[acks[a]].route.task == EvictableOf(acks, entries, tasks)[0]
    requires Retained(acks[b], entries, tasks)
    ensures a <= b
  {
    var n := |acks| - 1;
    if b < n {
      EvictableMember(acks[..n], entries, tasks, entries[acks[b]].route.task);
      EvictableMember(acks[..n], entries, tasks, EvictableOf(acks[..n], entries, tasks)[0]);
      if a < n {
        HeadIsOldest(acks[..n], entries, tasks, a, b);
      }
    }
  }

  /**
   The admission pigeonhole. Unacknowledged identities inject into owned frames, so a full identity
   table below a non-full ownership table always holds an acknowledged identity to evict.
   */
  lemma AdmissionPigeonhole(l: Ledger)
    requires LedgerInv(l)
    requires |Owned(l)| < MAX_TRACKED_FRAMES && |l.tasks| >= MAX_RETAINED_PUBLISHED_TASKS
    ensures Evictable(l) != []
  {
    if Evictable(l) == [] {
      var image := set tk | tk in l.tasks.Keys :: TaskFrame(tk, l.tasks[tk]);
      forall a, b | a in l.tasks.Keys && b in l.tasks.Keys && TaskFrame(a, l.tasks[a]) == TaskFrame(b, l.tasks[b])
        ensures a == b
      {
        TaskFramesDistinct(l, a, b);
      }
      ImageSize(l.tasks, l.tasks.Keys);
      forall k | k in image ensures k in Owned(l) {
        var tk :| tk in l.tasks && k == TaskFrame(tk, l.tasks[tk]);
        EvictableExact(l, tk);
        assert EntryOk(k, l.entries[k]);
      }
      SubsetSize(image, Owned(l));
    }
  }

  // ---------- Keeping the table coherent ----------

  /** Any change that keeps routes and does not revive or create a pending task frame keeps `TasksInv`. */
  lemma TasksKeep(l: Ledger, m: Ledger)
    requires TasksInv(l) && m.tasks == l.tasks
    requires forall k :: k in l.entries ==> k in m.entries && m.entries[k].route == l.entries[k].route
    requires forall k :: k in m.entries && m.entries[k].fate.Pending? && m.entries[k].route.ForTask? ==> IsPending(l, k)
    ensures TasksInv(m)
  {
  }

  /** The table after making room for one more identity. */
  ghost function RoomFor(l: Ledger): map<TaskKey, TaskRecord> {
    if |l.tasks| >= MAX_RETAINED_PUBLISHED_TASKS && Evictable(l) != [] then l.tasks - {Evictable(l)[0]} else l.tasks
  }

  lemma RoomForIsRoom(l: Ledger)
    requires LedgerInv(l) && |Owned(l)| < MAX_TRACKED_FRAMES
    ensures |RoomFor(l)| < MAX_RETAINED_PUBLISHED_TASKS
    ensures |l.tasks| >= MAX_RETAINED_PUBLISHED_TASKS ==>
              Evictable(l) != [] && Evictable(l)[0] in l.tasks && RoomFor(l) == l.tasks - {Evictable(l)[0]}
  {
    if |l.tasks| >= MAX_RETAINED_PUBLISHED_TASKS {
      AdmissionPigeonhole(l);
      var tk := Evictable(l)[0];
      EvictableExact(l, tk);
      assert l.tasks.Keys == (l.tasks - {tk}).Keys + {tk};
    }
  }

  ghost function Admit(l: Ledger, tk: TaskKey, rec: TaskRecord, frame: RelayFrame): Ledger {
    Accept(l.(tasks := RoomFor(l)[tk := rec]), TaskFrame(tk, rec), frame, ForTask(tk))
  }

  lemma AdmitKeeps(l: Ledger, tk: TaskKey, rec: TaskRecord, frame: RelayFrame)
    requires LedgerInv(l) && |Owned(l)| < MAX_TRACKED_FRAMES
    requires tk !in l.tasks && TaskFrame(tk, rec) !in l.entries
    requires EntryOk(TaskFrame(tk, rec), Entry(frame, ForTask(tk), Pending))
    ensures LedgerInv(Admit(l, tk, rec, frame))
  {
    RoomForIsRoom(l);
    var m := Admit(l, tk, rec, frame);
    var mid := l.(tasks := RoomFor(l)[tk := rec]);
    assert Owned(mid) == Owned(l);
    assert EntriesInv(mid) by {
      forall k | k in mid.entries ensures EntryOk(k, mid.entries[k]) { assert EntryOk(k, l.entries[k]); }
    }
    AcceptKeeps(mid, TaskFrame(tk, rec), frame, ForTask(tk));
    AdmitTasks(l, tk, rec, frame);
  }

  /** Making room never drops an identity whose frame is still pending. */
  lemma PendingSurvivesRoom(l: Ledger, k: FrameKey)
    requires LedgerInv(l) && IsPending(l, k) && l.entries[k].route.ForTask?
    ensures Retained(k, l.entries, RoomFor(l))
  {
    assert Retained(k, l.entries, l.tasks);
    EvictableExact(l, l.entries[k].route.task);
  }

  lemma AdmitTasks(l: Ledger, tk: TaskKey, rec: TaskRecord, frame: RelayFrame)
    requires LedgerInv(l) && |RoomFor(l)| < MAX_RETAINED_PUBLISHED_TASKS
    requires tk !in l.tasks && TaskFrame(tk, rec) !in l.entries
    ensures TasksInv(Admit(l, tk, rec, frame))
  {
    var m := Admit(l, tk, rec, frame);
    assert |m.tasks| <= MAX_RETAINED_PUBLISHED_TASKS by {
      assert m.tasks.Keys == RoomFor(l).Keys + {tk};
    }
    forall k | k in m.entries && m.entries[k].fate.Pending? && m.entries[k].route.ForTask?
      ensures Retained(k, m.entries, m.tasks)
    {
      if k != TaskFrame(tk, rec) {
        PendingSurvivesRoom(l, k);
      }
    }
    forall t | t in m.tasks
      ensures TaskFrame(t, m.tasks[t]) in m.entries && m.entries[TaskFrame(t, m.tasks[t])].route == ForTask(t)
    {
      if t != tk { assert t in l.tasks; }
    }
  }

  /** Admission drops the evicted head from the queue and adds nothing to it. */
  lemma AdmitEvictable(l: Ledger, tk: TaskKey, rec: TaskRecord, frame: RelayFrame)
    requires LedgerInv(l) && tk !in l.tasks && TaskFrame(tk, rec) !in l.entries
    ensures Evictable(Admit(l, tk, rec, frame))
         == if |l.tasks| >= MAX_RETAINED_PUBLISHED_TASKS && Evictable(l) != [] then Evictable(l)[1..] else Evictable(l)
  {
    var m := Admit(l, tk, rec, frame);
    if |l.tasks| >= MAX_RETAINED_PUBLISHED_TASKS && Evictable(l) != [] {
      EvictHead(l.acks, l.entries, l.tasks);
    }
    EvictableFrame(l.acks, l.entries, RoomFor(l), m.entries, m.tasks);
  }

  /** Acknowledging a task frame appends its identity to the queue; any other frame leaves the queue alone. */
  lemma AcknowledgeEvictable(l: Ledger, k: FrameKey)
    requires LedgerInv(l) && IsPending(l, k)
    ensures Evictable(Acknowledge(l, k))
         == Evictable(l) + if l.entries[k].route.ForTask? then [l.entries[k].route.task] else []
  {
    var m := Acknowledge(l, k);
    assert m.acks[..|l.acks|] == l.acks;
    EvictableFrame(l.acks, l.entries, l.tasks, m.entries, m.tasks);
    assert Retained(k, m.entries, m.tasks) <==> l.entries[k].route.ForTask?;
  }
}
