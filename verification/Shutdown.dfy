/**
 Graceful shutdown of the daemon: RPC admission (check, count, re-check) racing with a shutdown that
 sets a flag and then polls the counter. All accesses are sequentially consistent atomics, so each is
 one event and a run is any interleaving of any number of RPC threads.
 */
module Shutdown {
  import opened Basics

  /** Where an RPC thread is in `RpcInFlightGuard`. */
  datatype Pc =
    | Arriving   // before the first check
    | Passed     // read the flag as clear
    | Counted    // incremented, before the second check
    | Inside     // holds the guard
    | Refusing   // read the flag as set, has still to decrement
    | Left

  datatype Drain = Serving | Draining | Drained | TimedOut

  datatype State = State(shuttingDown: bool, inFlight: nat, threads: map<nat, Pc>, drain: Drain)

  datatype Event =
    | Arrive(t: nat)
    | Check(t: nat)
    | Count(t: nat)
    | Recheck(t: nat)
    | Release(t: nat)   // dropping the guard, or undoing a refused count
    | Initiate          // only sets the flag
    | BeginShutdown     // sets the flag and enters the drain loop
    | Poll              // reads the counter; zero leaves the loop
    | GiveUp            // the deadline passes with the counter above zero

  const Start: State := State(false, 0, map[], Serving)

  predicate At(s: State, t: nat, pc: Pc) {
    t in s.threads && s.threads[t] == pc
  }

  predicate InFlightPc(pc: Pc) {
    pc.Counted? || pc.Inside? || pc.Refusing?
  }

  /** Threads between their increment and their decrement. */
  function InFlight(s: State): set<nat> {
    set t | t in s.threads && InFlightPc(s.threads[t])
  }

  function Move(s: State, t: nat, pc: Pc): State {
    s.(threads := s.threads[t := pc])
  }

  /** `fetch_add(1)` and `fetch_sub(1)` on a 64-bit counter. */
  function Add(n: nat): nat { if n + 1 == TWO_64 then 0 else n + 1 }
  function Sub(n: nat): nat { if n == 0 then TWO_64 - 1 else n - 1 }

  /** What a 64-bit counter says of `n` increments. */
  function Wrap(n: nat): nat { n % TWO_64 }

  /** One atomic step; an event that cannot happen now changes nothing. */
  function Next(s: State, e: Event): State {
    match e
    case Arrive(t) => if t in s.threads then s else Move(s, t, Arriving)
    case Check(t) => if At(s, t, Arriving) then Move(s, t, if s.shuttingDown then Left else Passed) else s
    case Count(t) => if At(s, t, Passed) then Move(s, t, Counted).(inFlight := Add(s.inFlight)) else s
    case Recheck(t) => if At(s, t, Counted) then Move(s, t, if s.shuttingDown then Refusing else Inside) else s
    case Release(t) =>
      if At(s, t, Inside) || At(s, t, Refusing) then Move(s, t, Left).(inFlight := Sub(s.inFlight)) else s
    case Initiate => s.(shuttingDown := true)
    case BeginShutdown => if s.drain.Serving? then s.(shuttingDown := true, drain := Draining) else s
    case Poll => if s.drain.Draining? && s.inFlight == 0 then s.(drain := Drained) else s
    case GiveUp => if s.drain.Draining? && s.inFlight != 0 then s.(drain := TimedOut) else s
  }

  function Exec(es: seq<Event>): State {
    if es == [] then Start else Next(Exec(es[..|es| - 1]), es[|es| - 1])
  }

  ghost predicate Inv(s: State) {
    && s.inFlight == Wrap(|InFlight(s)|)
    && (!s.drain.Serving? ==> s.shuttingDown)
  }

  lemma InFlightBounded(s: State)
    ensures |InFlight(s)| <= |s.threads|
  {
    assert s.threads.Keys == InFlight(s) + (s.threads.Keys - InFlight(s));
  }

  lemma WrapSteps(n: nat)
    ensures Wrap(0) == 0 && Add(Wrap(n)) == Wrap(n + 1)
    ensures n > 0 ==> Sub(Wrap(n)) == Wrap(n - 1)
    ensures n < TWO_64 ==> Wrap(n) == n
  {
  }

  /** Only an increment or a decrement changes who is in flight. */
  lemma InFlightNext(s: State, e: Event)
    ensures InFlight(Next(s, e)) ==
      match e
      case Count(t) => if At(s, t, Passed) then InFlight(s) + {t} else InFlight(s)
      case Release(t) => if At(s, t, Inside) || At(s, t, Refusing) then InFlight(s) - {t} else InFlight(s)
      case _ => InFlight(s)
  {
  }

  /** The counter is the number of in-flight threads, as a 64-bit counter can say it. */
  lemma CounterKeeps(s: State, e: Event)
    requires s.inFlight == Wrap(|InFlight(s)|)
    ensures Next(s, e).inFlight == Wrap(|InFlight(Next(s, e))|)
  {
    hide Wrap, Add, Sub, InFlight;
    WrapSteps(|InFlight(s)|);
    InFlightNext(s, e);
    InFlightHas(s);
  }

  lemma InFlightHas(s: State)
    ensures forall t :: t in InFlight(s) <==> t in s.threads && InFlightPc(s.threads[t])
  {
  }

  lemma ThreadsGrow(s: State, e: Event)
    ensures |s.threads| <= |Next(s, e).threads|
  {
  }

  /** Entering needs a clear flag, and a thread inside stays there until it releases. */
  lemma EnteringNeedsClearFlag(s: State, e: Event, t: nat)
    requires At(Next(s, e), t, Inside)
    ensures At(s, t, Inside) || (!s.shuttingDown && At(s, t, Counted))
  {
    hide Add, Sub;
  }

  lemma FlagAndDrainStay(s: State, e: Event)
    ensures s.shuttingDown ==> Next(s, e).shuttingDown
    ensures s.drain.Drained? ==> Next(s, e).drain.Drained?
    ensures Next(s, e).drain.Drained? && !s.drain.Drained? ==> e == Poll && s.drain.Draining? && s.inFlight == 0
    ensures !Next(s, e).drain.Serving? ==> Next(s, e).shuttingDown || !s.drain.Serving?
  {
    hide Add, Sub;
  }

  lemma ZeroMeansNoneInside(s: State)
    requires s.inFlight == Wrap(|InFlight(s)|) == 0 && |InFlight(s)| < TWO_64
    ensures forall t :: t in s.threads ==> !InFlightPc(s.threads[t])
  {
    hide Wrap;
    WrapSteps(|InFlight(s)|);
    forall t | t in s.threads ensures !InFlightPc(s.threads[t]) {
      assert t !in InFlight(s);
    }
  }

  lemma InvKeeps(s: State, e: Event)
    requires Inv(s)
    ensures Inv(Next(s, e))
  {
    hide Next, Wrap, InFlight;
    CounterKeeps(s, e);
    FlagAndDrainStay(s, e);
  }

  lemma {:induction false} ReachableInv(es: seq<Event>)
    ensures Inv(Exec(es))
  {
    hide Next, Wrap;
    if es == [] {
      assert InFlight(Start) == {};
      WrapSteps(0);
    } else {
      ReachableInv(es[..|es| - 1]);
      InvKeeps(Exec(es[..|es| - 1]), es[|es| - 1]);
    }
  }

  lemma ExecNext(es: seq<Event>, i: nat)
    requires i < |es|
    ensures Exec(es[..i + 1]) == Next(Exec(es[..i]), es[i])
  {
    assert es[..i + 1][..i] == es[..i];
  }

  /** A drain that ended stays ended the same way, and the flag stays set. */
  lemma {:induction false} DrainIsFinal(es: seq<Event>, i: nat, j: nat)
    requires i <= j <= |es|
    ensures Exec(es[..i]).shuttingDown ==> Exec(es[..j]).shuttingDown
    ensures Exec(es[..i]).drain.Drained? ==> Exec(es[..j]).drain.Drained?
    decreases j
  {
    hide Next, Exec;
    if i < j {
      DrainIsFinal(es, i, j - 1);
      ExecNext(es, j - 1);
      FlagAndDrainStay(Exec(es[..j - 1]), es[j - 1]);
    }
  }

  /**
   Admission closes with the flag: an RPC inside its section at any point after the flag was set was
   already inside when it was set, however many threads passed their first check before.
   */
  lemma {:induction false} NoEntryAfterFlag(es: seq<Event>, i: nat, j: nat, t: nat)
    requires i <= j <= |es| && Exec(es[..i]).shuttingDown && At(Exec(es[..j]), t, Inside)
    ensures At(Exec(es[..i]), t, Inside)
    decreases j
  {
    hide Next, Exec;
    if i < j {
      ExecNext(es, j - 1);
      DrainIsFinal(es, i, j - 1);
      EnteringNeedsClearFlag(Exec(es[..j - 1]), es[j - 1], t);
      NoEntryAfterFlag(es, i, j - 1, t);
    }
  }

  /** Either way of starting a shutdown closes admission: whoever is inside afterwards was inside before. */
  lemma InitiateCloses(es: seq<Event>, i: nat, j: nat, t: nat)
    requires i < j <= |es| && (es[i] == Initiate || es[i] == BeginShutdown) && At(Exec(es[..j]), t, Inside)
    ensures Exec(es[..i + 1]).shuttingDown && At(Exec(es[..i]), t, Inside)
  {
    hide Exec, Wrap, InFlight;
    ReachableInv(es[..i]);
    ExecNext(es, i);
    NoEntryAfterFlag(es, i + 1, j, t);
  }

  /** After the flag an arriving RPC is refused at its first check, without being counted. */
  lemma FirstCheckRefuses(es: seq<Event>, t: nat)
    requires Exec(es).shuttingDown && At(Exec(es), t, Arriving)
    ensures var s := Exec(es + [Check(t)]);
            At(s, t, Left) && InFlight(s) == InFlight(Exec(es)) && s.inFlight == Exec(es).inFlight
  {
    hide Exec;
    ExecAppend(es, Check(t));
  }

  /** An RPC refused at its second check gives its count back and leaves. */
  lemma SecondCheckRefuses(es: seq<Event>, t: nat)
    requires Exec(es).shuttingDown && At(Exec(es), t, Counted)
    ensures var s := Exec(es + [Recheck(t)] + [Release(t)]);
            At(s, t, Left) && InFlight(s) == InFlight(Exec(es)) - {t} && t in InFlight(Exec(es)) && s.inFlight == Wrap(|InFlight(s)|)
  {
    hide Exec, Wrap, Sub;
    ExecAppend(es, Recheck(t));
    ExecAppend(es + [Recheck(t)], Release(t));
    ReachableInv(es + [Recheck(t)] + [Release(t)]);
    assert t in InFlight(Exec(es));
  }

  /** An RPC that holds the guard gives its count back when it drops it. */
  lemma GuardReleases(es: seq<Event>, t: nat)
    requires At(Exec(es), t, Inside)
    ensures var s := Exec(es + [Release(t)]);
            At(s, t, Left) && InFlight(s) == InFlight(Exec(es)) - {t} && t in InFlight(Exec(es)) && s.inFlight == Wrap(|InFlight(s)|)
  {
    hide Exec, Wrap, Sub;
    ExecAppend(es, Release(t));
    ReachableInv(es + [Release(t)]);
    assert t in InFlight(Exec(es));
  }

  /** The event at `i` is the poll that reads zero and ends the drain. */
  ghost predicate DrainsAt(es: seq<Event>, i: nat) {
    i < |es| && es[i] == Poll && Exec(es[..i]).drain.Draining? && Exec(es[..i]).inFlight == 0
  }

  /**
   Shutdown safety. Once the drain loop has read zero, no RPC is inside its section, and none ever is
   again, however many RPCs came and went before or arrive after, provided that fewer than 2^64 were
   in flight when it read.
   */
  lemma DrainedMeansNoneInside(es: seq<Event>, i: nat, j: nat, t: nat)
    requires DrainsAt(es, i) && |InFlight(Exec(es[..i]))| < TWO_64 && i <= j <= |es|
    ensures !At(Exec(es[..j]), t, Inside)
  {
    hide Exec, Next, Wrap, InFlight;
    ReachableInv(es[..i]);
    ZeroMeansNoneInside(Exec(es[..i]));
    if At(Exec(es[..j]), t, Inside) {
      NoEntryAfterFlag(es, i, j, t);
    }
  }

  /** A drain ended by some poll of the run. */
  lemma {:induction false} DrainEnded(es: seq<Event>) returns (i: nat)
    requires Exec(es).drain.Drained?
    ensures DrainsAt(es, i)
  {
    hide Next;
    var n := |es| - 1;
    FlagAndDrainStay(Exec(es[..n]), es[n]);
    if Exec(es[..n]).drain.Drained? {
      i := DrainEnded(es[..n]);
      assert es[..n][..i] == es[..i];
    } else {
      i := n;
    }
  }

  /** The counter is the number of threads in flight exactly while that number fits it, and then zero means none. */
  lemma CounterIsExact(es: seq<Event>)
    ensures Exec(es).inFlight == |InFlight(Exec(es))| <==> |InFlight(Exec(es))| < TWO_64
    ensures |InFlight(Exec(es))| < TWO_64 ==>
              (Exec(es).inFlight == 0 <==> forall t :: t in Exec(es).threads ==> !InFlightPc(Exec(es).threads[t]))
  {
    hide Exec;
    ReachableInv(es);
    var s := Exec(es);
    if |InFlight(s)| < TWO_64 && s.inFlight == 0 {
      ZeroMeansNoneInside(s);
    } else if s.inFlight != 0 {
      assert InFlight(s) != {} by { if InFlight(s) == {} { WrapSteps(0); } }
    }
  }

  /** Reading zero is what makes shutdown safe: after a timed-out drain an RPC can still be inside. */
  lemma TimedOutCanOverlap()
    ensures exists es :: Exec(es).drain.TimedOut? && At(Exec(es), 0, Inside)
  {
    var es := [Arrive(0), Check(0), Count(0), Recheck(0), BeginShutdown, GiveUp];
    assert es[..5] == [Arrive(0), Check(0), Count(0), Recheck(0), BeginShutdown];
    assert es[..5][..4] == [Arrive(0), Check(0), Count(0), Recheck(0)];
    assert es[..4] == [Arrive(0), Check(0), Count(0), Recheck(0)];
    assert es[..4][..3] == [Arrive(0), Check(0), Count(0)];
    assert [Arrive(0), Check(0), Count(0)][..2] == [Arrive(0), Check(0)];
    assert [Arrive(0), Check(0)][..1] == [Arrive(0)];
    assert Exec([Arrive(0)]) == State(false, 0, map[0 := Arriving], Serving);
    assert Exec([Arrive(0), Check(0)]) == State(false, 0, map[0 := Passed], Serving);
    assert Exec([Arrive(0), Check(0), Count(0)]) == State(false, 1, map[0 := Counted], Serving);
    assert Exec(es[..4]) == State(false, 1, map[0 := Inside], Serving);
    assert Exec(es[..5]) == State(true, 1, map[0 := Inside], Draining);
    assert Exec(es) == Next(Exec(es[..5]), es[5]) == State(true, 1, map[0 := Inside], TimedOut);
  }

  lemma ExecAppend(es: seq<Event>, e: Event)
    ensures Exec(es + [e]) == Next(Exec(es), e)
  {
  }

  /** Before any shutdown an arriving RPC gets in, and is counted once. */
  lemma Enters(es: seq<Event>, t: nat)
    requires t !in Exec(es).threads && !Exec(es).shuttingDown
    ensures Exec(es + [Arrive(t)] + [Check(t)] + [Count(t)] + [Recheck(t)])
         == Exec(es).(inFlight := Add(Exec(es).inFlight), threads := Exec(es).threads[t := Inside])
  {
    hide Add, Exec;
    ExecAppend(es, Arrive(t));
    ExecAppend(es + [Arrive(t)], Check(t));
    ExecAppend(es + [Arrive(t)] + [Check(t)], Count(t));
    ExecAppend(es + [Arrive(t)] + [Check(t)] + [Count(t)], Recheck(t));
  }

  /** A run that brings `n` RPCs inside before any shutdown. */
  lemma {:induction false} Crowd(n: nat) returns (es: seq<Event>)
    ensures var s := Exec(es);
            && !s.shuttingDown && s.drain.Serving?
            && (n > 0 ==> At(s, 0, Inside)) && (forall t :: t in s.threads ==> t < n)
            && |InFlight(s)| == n
  {
    if n == 0 {
      es := [];
      assert InFlight(Start) == {};
    } else {
      hide Exec, Next, Add;
      var rest := Crowd(n - 1);
      var t := n - 1;
      Enters(rest, t);
      es := rest + [Arrive(t)] + [Check(t)] + [Count(t)] + [Recheck(t)];
      assert InFlight(Exec(es)) == InFlight(Exec(rest)) + {t};
    }
  }

  lemma {:induction false} BelowSize(s: set<nat>, n: nat)
    requires forall t :: t in s ==> t < n
    ensures |s| <= n
  {
    if n > 0 {
      BelowSize(s - {n - 1}, n - 1);
    }
  }

  lemma {:induction false} ThreadsMonotone(es: seq<Event>, i: nat)
    requires i <= |es|
    ensures |Exec(es[..i]).threads| <= |Exec(es).threads|
  {
    hide Next;
    if i == |es| {
      assert es[..i] == es;
    } else {
      var n := |es| - 1;
      assert es[..n][..i] == es[..i];
      ThreadsMonotone(es[..n], i);
      ThreadsGrow(Exec(es[..n]), es[n]);
    }
  }

  /** At no point of the run are more than `n` threads in flight. */
  ghost predicate InFlightWithin(es: seq<Event>, n: nat) {
    forall i :: 0 <= i <= |es| ==> |InFlight(Exec(es[..i]))| <= n
  }

  /** 2^64 RPCs inside read as zero, and the drain then lets the store close under them. */
  lemma WrappedCounterCanOverlap() returns (es: seq<Event>)
    ensures Exec(es).drain.Drained? && At(Exec(es), 0, Inside) && InFlightWithin(es, TWO_64)
  {
    hide Wrap, Exec, InFlight;
    var crowd := Crowd(TWO_64);
    ReachableInv(crowd);
    FullWrap();
    BelowSize(Exec(crowd).threads.Keys, TWO_64);
    ExecAppend(crowd, BeginShutdown);
    ExecAppend(crowd + [BeginShutdown], Poll);
    es := crowd + [BeginShutdown] + [Poll];
    forall i | 0 <= i <= |es| ensures |InFlight(Exec(es[..i]))| <= TWO_64 {
      ThreadsMonotone(es, i);
      InFlightBounded(Exec(es[..i]));
    }
  }

  lemma FullWrap()
    ensures Wrap(TWO_64) == 0
  {
  }

  ghost predicate DrainIsSafe(es: seq<Event>) {
    Exec(es).drain.Drained? ==> forall t :: !At(Exec(es), t, Inside)
  }

  /**
   The bound is the counter's own: a drain is safe in all runs, of any length and any number of
   threads, that never have more than `n` in flight at once iff `n` is below 2^64.
   */
  lemma DrainIsSafeIff(n: nat)
    ensures (forall es :: InFlightWithin(es, n) ==> DrainIsSafe(es)) <==> n < TWO_64
  {
    hide Exec, Next, Wrap, InFlight;
    if n < TWO_64 {
      forall es | InFlightWithin(es, n) ensures DrainIsSafe(es) {
        if Exec(es).drain.Drained? {
          var i := DrainEnded(es);
          assert es[..|es|] == es;
          forall t ensures !At(Exec(es), t, Inside) {
            DrainedMeansNoneInside(es, i, |es|, t);
          }
        }
      }
    } else {
      var es := WrappedCounterCanOverlap();
      assert InFlightWithin(es, n);
      assert !DrainIsSafe(es);
    }
  }
}
