/** Connection generations and the fence around cleanups, over every run. */
module RelayFencing {
  import opened Basics
  import opened Text
  import opened RelayFrames
  import opened Ledger
  import opened TaskTable
  import opened RelaySpec
  import opened RelaySystem
  import opened RelayTheorems
  import opened RelayGuarantees

  function ConnectCount(es: seq<Event>): nat {
    if es == [] then 0 else ConnectCount(es[..|es| - 1]) + if es[|es| - 1].Connected? then 1 else 0
  }

  /** Generations run through 1, 2, ..., 2^64 - 1 and then start again. */
  const PERIOD: nat := 0xFFFF_FFFF_FFFF_FFFF

  /** The generation the `n`-th connect takes. */
  function GenerationAfter(n: nat): nat {
    if n == 0 then 0 else (n - 1) % PERIOD + 1
  }

  lemma NextGenerationCounts(n: nat)
    ensures NextGeneration(GenerationAfter(n)) == GenerationAfter(n + 1)
  {
  }

  lemma GenerationEvolves(s: System, e: Event)
    ensures Next(s, e).relay.generation == if e.Connected? then NextGeneration(s.relay.generation) else s.relay.generation
  {
    hide Owned, Window, Admissible, NextGeneration, Waiting, IsPending, Mailbox, Trim;
  }

  /** The generation counter is a function of the number of connects so far. */
  lemma {:induction false} GenerationCountsConnects(es: seq<Event>)
    ensures Exec(es).relay.generation == GenerationAfter(ConnectCount(es))
  {
    hide Next, GenerationAfter, NextGeneration;
    if es == [] {
      assert GenerationAfter(0) == 0 by { ZeroGeneration(); }
    } else {
      var n := |es| - 1;
      GenerationCountsConnects(es[..n]);
      GenerationEvolves(Exec(es[..n]), es[n]);
      NextGenerationCounts(ConnectCount(es[..n]));
    }
  }

  lemma ZeroGeneration()
    ensures GenerationAfter(0) == 0
  {
  }

  /** The generation that the connect at position `i` of the run was given. */
  function GenerationAt(es: seq<Event>, i: nat): nat
    requires i < |es| && es[i].Connected?
  {
    GenerationAfter(ConnectCount(es[..i + 1]))
  }

  /** Two connects share a generation exactly when a whole number of 2^64 - 1 connects separates them. */
  lemma GenerationsCollide(a: nat, b: nat)
    requires 1 <= a < b
    ensures GenerationAfter(a) == GenerationAfter(b) <==> (b - a) % PERIOD == 0
  {
  }

  lemma {:induction false} ConnectCountMonotone(es: seq<Event>, i: nat, j: nat)
    requires i <= j <= |es|
    ensures ConnectCount(es[..i]) <= ConnectCount(es[..j])
    ensures i < j && es[j - 1].Connected? ==> ConnectCount(es[..i]) < ConnectCount(es[..j])
    decreases j
  {
    if i < j {
      assert es[..j][..j - 1] == es[..j - 1];
      ConnectCountMonotone(es, i, j - 1);
    }
  }

  lemma GenerationIsCount(es: seq<Event>, i: nat)
    requires i < |es| && es[i].Connected? && ConnectCount(es) < TWO_64
    ensures GenerationAt(es, i) == ConnectCount(es[..i + 1])
  {
    hide GenerationAfter, ConnectCount;
    ConnectCountMonotone(es, i + 1, |es|);
    assert es[..|es|] == es;
    SmallGeneration(ConnectCount(es[..i + 1]));
  }

  lemma SmallGeneration(n: nat)
    requires n < TWO_64
    ensures GenerationAfter(n) == n
  {
  }

  /** With fewer than 2^64 connects, generations are unique and increasing. */
  lemma GenerationsIncrease(es: seq<Event>, i: nat, j: nat)
    requires i < j < |es| && es[i].Connected? && es[j].Connected? && ConnectCount(es) < TWO_64
    ensures GenerationAt(es, i) < GenerationAt(es, j)
  {
    hide ConnectCount, GenerationAt;
    GenerationIsCount(es, i);
    GenerationIsCount(es, j);
    ConnectCountMonotone(es, i + 1, j + 1);
  }

  /** At point `m` of the run the node is connected under generation `g`. */
  ghost predicate ConnectedUnder(es: seq<Event>, m: nat, node: string, g: nat) {
    m <= |es| && node in Exec(es[..m]).relay.connected && Exec(es[..m]).relay.connected[node].generation == g
  }

  lemma ConnectedUnderPrefix(es: seq<Event>, n: nat, m: nat, node: string, g: nat)
    requires m <= n <= |es|
    ensures ConnectedUnder(es[..n], m, node, g) <==> ConnectedUnder(es, m, node, g)
  {
    assert es[..n][..m] == es[..m];
  }

  /** The node's last connect is the one at `i`. */
  ghost predicate LastConnect(es: seq<Event>, node: string, i: nat) {
    i < |es| && es[i] == Connected(node) && forall m :: i < m < |es| ==> es[m] != Connected(node)
  }

  ghost predicate UnderSince(es: seq<Event>, node: string, i: nat, g: nat) {
    forall m :: i < m <= |es| ==> ConnectedUnder(es, m, node, g)
  }

  /**
   The connect at `i` installed the stream `node` has now: the node has been connected under that
   connect's generation ever since, and has not connected again.
   */
  ghost predicate InstalledBy(es: seq<Event>, node: string, i: nat) {
    LastConnect(es, node, i) && UnderSince(es, node, i, GenerationAt(es, i))
  }

  lemma ConnectionEvolves(s: System, e: Event, node: string)
    requires node in Next(s, e).relay.connected && e != Connected(node)
    ensures node in s.relay.connected && Next(s, e).relay.connected[node].generation == s.relay.connected[node].generation
  {
    hide Owned, Window, Admissible, NextGeneration, Waiting, IsPending, Mailbox, Trim, Admit, Accept, AbandonAll;
  }

  /** A connect always installs its own stream, under the generation it was given. */
  lemma ConnectInstalls(es: seq<Event>, n: nat, node: string)
    requires n < |es| && es[n] == Connected(node)
    ensures node in Exec(es[..n + 1]).relay.connected
    ensures Exec(es[..n + 1]).relay.connected[node].generation == GenerationAt(es, n)
  {
    hide GenerationAfter, NextGeneration, Mailbox, Exec;
    ExecNext(es, n);
    ReplayIsComplete(es[..n], node);
    GenerationCountsConnects(es[..n]);
    NextGenerationCounts(ConnectCount(es[..n]));
    assert es[..n + 1][..n] == es[..n];
  }

  lemma ConnectionStays(es: seq<Event>, n: nat, node: string, g: nat)
    requires n < |es| && ConnectedUnder(es, n, node, g) && es[n] != Connected(node)
    requires node in Exec(es[..n + 1]).relay.connected
    ensures ConnectedUnder(es, n + 1, node, g)
  {
    hide Next, Exec;
    ExecNext(es, n);
    ConnectionEvolves(Exec(es[..n]), es[n], node);
  }

  lemma {:induction false} UnderStays(es: seq<Event>, node: string, i: nat, g: nat)
    requires es != [] && UnderSince(es[..|es| - 1], node, i, g) && i < |es| - 1
    requires node in Exec(es).relay.connected && es[|es| - 1] != Connected(node)
    ensures UnderSince(es, node, i, g)
  {
    hide Exec, ConnectedUnder;
    var n := |es| - 1;
    forall m | i < m <= n ensures ConnectedUnder(es, m, node, g) {
      ConnectedUnderPrefix(es, n, m, node, g);
    }
    assert es[..n + 1] == es;
    ConnectionStays(es, n, node, g);
  }

  lemma {:induction false} InstalledStays(es: seq<Event>, node: string, i: nat)
    requires es != [] && InstalledBy(es[..|es| - 1], node, i) && es[|es| - 1] != Connected(node)
    requires node in Exec(es).relay.connected
    ensures InstalledBy(es, node, i)
  {
    hide GenerationAfter, ConnectCount, Exec, UnderSince;
    var front := es[..|es| - 1];
    assert front[..i + 1] == es[..i + 1];
    UnderStays(es, node, i, GenerationAt(front, i));
  }

  /** Every installed stream was installed by one connect of its own node and has stayed since, in every run. */
  lemma {:induction false} Provenance(es: seq<Event>, node: string) returns (i: nat)
    requires node in Exec(es).relay.connected
    ensures InstalledBy(es, node, i)
  {
    hide GenerationAfter, GenerationAt;
    var n := |es| - 1;
    assert es[..n + 1] == es;
    if es[n] == Connected(node) {
      ConnectInstalls(es, n, node);
      i := n;
    } else {
      ConnectionEvolves(Exec(es[..n]), es[n], node);
      i := Provenance(es[..n], node);
      InstalledStays(es, node, i);
    }
  }

  /** What a cleanup that meets its stream does: that connection goes, with its Fleet frames, and nothing else. */
  ghost function CleanedUpState(s: System, node: string): System {
    s.(relay := s.relay.(connected := s.relay.connected - {node},
                         ledger := AbandonAll(s.relay.ledger, FleetKeys(s.relay.ledger, node))))
  }

  /** A cleanup that holds the generation of the connect at `i` removes the stream that connect installed, or changes nothing. */
  ghost predicate Fenced(es: seq<Event>, node: string, i: nat) {
    i < |es| && es[i] == Connected(node) ==>
      Next(Exec(es), CleanedUp(node, GenerationAt(es, i)))
      == if InstalledBy(es, node, i) then CleanedUpState(Exec(es), node) else Exec(es)
  }

  lemma CleanupMeets(s: System, node: string, generation: nat)
    ensures Next(s, CleanedUp(node, generation))
         == if node in s.relay.connected && s.relay.connected[node].generation == generation then CleanedUpState(s, node) else s
  {
  }

  /** Fencing, over every run with fewer than 2^64 connects. */
  lemma CleanupIsFenced(es: seq<Event>, node: string, i: nat)
    requires ConnectCount(es) < TWO_64
    ensures Fenced(es, node, i)
  {
    hide GenerationAfter, GenerationAt, Exec, Next, CleanedUpState, ConnectCount;
    if i < |es| && es[i] == Connected(node) {
      var s := Exec(es);
      CleanupMeets(s, node, GenerationAt(es, i));
      assert es[..|es|] == es;
      if InstalledBy(es, node, i) {
        assert ConnectedUnder(es, |es|, node, GenerationAt(es, i));
      } else if node in s.relay.connected {
        var c := Provenance(es, node);
        assert ConnectedUnder(es, |es|, node, GenerationAt(es, c));
        if s.relay.connected[node].generation == GenerationAt(es, i) {
          if i < c { GenerationsIncrease(es, i, c); }
        }
      }
    }
  }

  function Reconnects(node: string, n: nat): seq<Event> {
    seq(n, _ => Connected(node))
  }

  lemma {:induction false} ReconnectCount(node: string, n: nat)
    ensures ConnectCount(Reconnects(node, n)) == n
  {
    if n > 0 {
      assert Reconnects(node, n)[..n - 1] == Reconnects(node, n - 1);
      ReconnectCount(node, n - 1);
    }
  }

  /** After 2^64 connects of one node, the cleanup of the first removes the stream of the last. */
  lemma ReusedGenerationBreaksFence(node: string) returns (es: seq<Event>)
    ensures ConnectCount(es) == TWO_64 && !Fenced(es, node, 0)
  {
    hide Exec, Next, ConnectCount, GenerationAfter, CleanedUpState;
    es := Reconnects(node, TWO_64);
    ReconnectCount(node, TWO_64);
    ReconnectCount(node, 1);
    var last := TWO_64 - 1;
    assert es[..last + 1] == es && es[..1] == Reconnects(node, 1);
    ConnectInstalls(es, last, node);
    FirstAndLastCollide();
    CleanupMeets(Exec(es), node, GenerationAt(es, 0));
    assert es[1] == Connected(node);
    CleanupRemoves(Exec(es), node);
  }

  lemma CleanupRemoves(s: System, node: string)
    requires node in s.relay.connected
    ensures CleanedUpState(s, node) != s
  {
    assert node !in CleanedUpState(s, node).relay.connected;
  }

  lemma FirstAndLastCollide()
    ensures GenerationAfter(1) == GenerationAfter(TWO_64)
  {
  }

  /** The fence holds in all runs of at most `n` connects iff `n` is below 2^64. */
  lemma FencedIff(n: nat)
    ensures (forall es, node, i :: ConnectCount(es) <= n ==> Fenced(es, node, i)) <==> n < TWO_64
  {
    hide Fenced, ConnectCount;
    if n < TWO_64 {
      forall es, node, i | ConnectCount(es) <= n ensures Fenced(es, node, i) {
        CleanupIsFenced(es, node, i);
      }
    } else {
      var es := ReusedGenerationBreaksFence("");
    }
  }
}
