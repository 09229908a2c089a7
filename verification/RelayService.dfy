/** The runtime class behind its handlers: it runs any list of events and ends where the run does. */
module RelayService {
  import opened Basics
  import opened Text
  import opened RelayFrames
  import opened Ledger
  import Spec = RelaySpec
  import opened RelaySpec
  import opened RelaySystem
  import opened RelayTheorems
  import R = RelayRuntime

  /** Every event of the list can happen when its turn comes. */
  ghost predicate Runnable(es: seq<Event>) {
    es == [] || (Runnable(es[..|es| - 1]) && Enabled(Exec(es[..|es| - 1]), es[|es| - 1]))
  }

  /** Dropping the events that cannot happen leaves a runnable list that ends in the same state. */
  lemma {:induction false} EveryRunIsRunnable(es: seq<Event>) returns (run: seq<Event>)
    ensures Runnable(run) && Exec(run) == Exec(es)
  {
    hide Enabled, Step;
    if es == [] {
      run := [];
    } else {
      var n := |es| - 1;
      run := EveryRunIsRunnable(es[..n]);
      if Enabled(Exec(es[..n]), es[n]) {
        var longer := run + [es[n]];
        assert longer[..|run|] == run;
        run := longer;
      }
    }
  }

  lemma SignalsRead(l: Ledger, signals: map<FrameKey, R.Signal>, k: FrameKey)
    requires R.SignalsMatch(l, signals) && k in l.entries && !l.entries[k].route.ForTask?
    ensures k in signals && (signals[k].SenderDropped? <==> l.entries[k].fate.Abandoned?)
  {
  }

  class RelayService {
    const runtime: R.RelayRuntime
    var publishers: map<nat, Publisher>
    ghost var issued: set<string>

    ghost function View(): System
      reads this, runtime
    {
      System(runtime.View(), publishers, issued)
    }

    ghost predicate Valid()
      reads this, runtime
    {
      runtime.Valid() && SysInv(View())
    }

    constructor ()
      ensures Valid() && View() == Start && fresh(runtime)
    {
      runtime := new R.RelayRuntime();
      publishers, issued := map[], {};
      new;
      StartInv();
    }

    /** `publish_task`. */
    method PublishTask(e: Event)
      requires Valid() && e.TaskPublished? && Enabled(View(), e)
      modifies runtime
      ensures runtime.Valid() && runtime.View() == RelayStep(old(View()), e)
    {
      hide SysInv, Fresh, Trim, Spec.PublishTask, LedgerInv, R.QueuesMatch, R.WaitersMatch, R.SignalsMatch, R.TasksMatch;
      NewIdIsFresh(View(), e.frameId, e.dest);
      var _ := runtime.PublishTaskFrame(TaskKeyOf(e), CanonicalIdentity(e.task), DeliveredTask(e.task, e.features),
                                        TaskFrameOf(e), Receipt(e.frameId, e.nowMs));
    }

    /** The waiting publish handlers: a routed frame gets an armed guard. */
    method PublishFrame(e: Event)
      requires Valid() && e.FramePublished? && Enabled(View(), e)
      modifies this`publishers, runtime
      ensures runtime.Valid() && runtime.View() == RelayStep(old(View()), e) && publishers == PublishersStep(old(View()), e)
    {
      hide SysInv, Fresh, Trim, Spec.RouteWaiting, LedgerInv, R.QueuesMatch, R.WaitersMatch, R.SignalsMatch, R.TasksMatch;
      NewIdIsFresh(View(), e.frame.frameId, e.dest);
      var _, waiting := runtime.RouteWaiting(e.route, e.dest, e.frame);
      if waiting {
        publishers := publishers[e.pid := Publisher(FrameKey(e.dest, Trim(e.frame.frameId)), e.route, true)];
      }
    }

    /** The `await_*` functions after their waiter resolved: a fired one disarms the guard, a dropped sender abandons through it. */
    method Observe(pid: nat)
      requires Valid() && Enabled(View(), Observed(pid))
      modifies this`publishers, runtime
      ensures runtime.Valid() && runtime.View() == RelayStep(old(View()), Observed(pid))
      ensures publishers == PublishersStep(old(View()), Observed(pid))
    {
      hide LedgerInv, AbandonAll, R.QueuesMatch, R.WaitersMatch, R.SignalsMatch, R.TasksMatch;
      var publisher := publishers[pid];
      assert PublisherOk(runtime.ledger, publisher);
      SignalsRead(runtime.ledger, runtime.signals, publisher.key);
      if runtime.signals[publisher.key].SenderDropped? {
        runtime.AbandonFrame(publisher.key.dest, publisher.key.id);
      }
      publishers := publishers[pid := publisher.(armed := false)];
    }

    /** Dropping an armed guard, on timeout or cancellation. */
    method DropGuard(pid: nat)
      requires Valid() && Enabled(View(), Dropped(pid))
      modifies this`publishers, runtime
      ensures runtime.Valid() && runtime.View() == RelayStep(old(View()), Dropped(pid))
      ensures publishers == PublishersStep(old(View()), Dropped(pid))
    {
      hide LedgerInv, AbandonAll, R.QueuesMatch, R.WaitersMatch, R.SignalsMatch, R.TasksMatch;
      var publisher := publishers[pid];
      assert PublisherOk(runtime.ledger, publisher);
      runtime.AbandonFrame(publisher.key.dest, publisher.key.id);
      publishers := publishers[pid := publisher.(armed := false)];
    }

    /** The node's end of its stream: it takes the next frame, or goes away. */
    method UseStream(node: string, e: Event)
      requires Valid() && Enabled(View(), e) && (e == Received(node) || e == ReceiverClosed(node))
      modifies runtime
      ensures runtime.Valid() && runtime.View() == RelayStep(old(View()), e)
    {
      hide SysInv, LedgerInv, R.QueuesMatch, R.WaitersMatch, R.SignalsMatch, R.TasksMatch;
      var connection := runtime.connectedNodes[node];
      var stream := connection.stream;
      var next := if e.Received? then stream.(queue := stream.queue[1..]) else stream.(open := false);
      runtime.connectedNodes := runtime.connectedNodes[node := connection.(stream := next)];
    }

    /** The remaining events are one call of the runtime each. */
    method CallRuntime(e: Event)
      requires Valid() && Enabled(View(), e)
      requires e.Registered? || e.Connected? || e.Disconnected? || e.CleanedUp? || e.Acked? || e.ControlCompleted?
      modifies runtime
      ensures runtime.Valid() && runtime.View() == RelayStep(old(View()), e)
    {
      hide SysInv, LedgerInv, R.QueuesMatch, R.WaitersMatch, R.SignalsMatch, R.TasksMatch,
           Spec.AckFrame, Spec.CompleteControl, Connect, Spec.DisconnectNode, DisconnectIfCurrent;
      match e {
        case Registered(node) => runtime.RegisterNode(node);
        case Connected(node) => var _, _ := runtime.ConnectNodeFenced(node, Stream(RELAY_STREAM_BUFFER, [], true));
        case Disconnected(node) => runtime.DisconnectNode(node);
        case CleanedUp(node, generation) => runtime.DisconnectNodeIfCurrent(node, generation);
        case Acked(dest, id) => var _ := runtime.AckFrame(dest, id);
        case ControlCompleted(route, dest, id, result) => var _ := runtime.CompleteControl(route, dest, id, result);
      }
    }

    /** One event on the class is one event of the run. */
    method Handle(e: Event)
      requires Valid() && Enabled(View(), e)
      modifies this, runtime
      ensures Valid() && View() == Step(old(View()), e)
    {
      hide SysInv, Enabled, RelayStep, LedgerInv, R.QueuesMatch, R.WaitersMatch, R.SignalsMatch, R.TasksMatch;
      StepKeeps(View(), e);
      ghost var after := Step(View(), e);
      match e {
        case TaskPublished(_, _, _, _, _, _, _) => PublishTask(e);
        case FramePublished(_, _, _, _) => PublishFrame(e);
        case Observed(pid) => Observe(pid);
        case Dropped(pid) => DropGuard(pid);
        case Received(node) => UseStream(node, e);
        case ReceiverClosed(node) => UseStream(node, e);
        case _ => CallRuntime(e);
      }
      issued := after.issued;
    }
  }

  /** The class, driven through any list of events that can happen, ends in the state of the run. */
  method Run(es: seq<Event>) returns (service: RelayService)
    requires Runnable(es)
    ensures fresh(service) && service.Valid() && service.View() == Exec(es)
  {
    hide SysInv, Enabled, Step, LedgerInv;
    service := new RelayService();
    for n := 0 to |es|
      invariant fresh(service) && fresh(service.runtime)
      invariant service.Valid() && service.View() == Exec(es[..n])
    {
      RunnablePrefix(es, n);
      ExecNext(es, n);
      service.Handle(es[n]);
    }
    assert es[..|es|] == es;
  }

  lemma {:induction false} RunnablePrefix(es: seq<Event>, n: nat)
    requires Runnable(es) && n < |es|
    ensures Enabled(Exec(es[..n]), es[n])
  {
    hide Enabled, Exec;
    if n < |es| - 1 {
      RunnablePrefix(es[..|es| - 1], n);
      assert es[..|es| - 1][..n] == es[..n];
    }
  }
}
