/** What the executor accepts reaches the origin and the store unchanged. */
module ArtifactPipeline {
  import opened Basics
  import opened Text
  import opened Artifacts
  import opened ArtifactOrigin

  /** The protocol version `build_terminal_result` stamps on a validated result. */
  function VersionFor(artifacts: seq<ResultArtifact>): nat {
    if AnyContent(artifacts) then 2 else 1
  }

  /** `canonicalize_origin_result_artifacts` returns Ok exactly here; see `ArtifactOrigin.Canonicalize`. */
  predicate OriginAccepts(h: Hash, artifacts: seq<ResultArtifact>, version: nat) {
    !(AnyContent(artifacts) && version < 2) && OriginAcceptable(h, artifacts, |artifacts|)
  }

  lemma {:induction false} BytesAgree(artifacts: seq<TaskArtifact>, n: nat)
    requires n <= |artifacts|
    ensures OriginBytes(WorkerOutput(artifacts), n) == WorkerBytes(artifacts, n)
  {
    if n > 0 {
      BytesAgree(artifacts, n - 1);
    }
  }

  lemma FaultsAgree(h: Hash, artifacts: seq<TaskArtifact>, i: nat)
    requires i < |artifacts|
    ensures OriginFault(h, WorkerOutput(artifacts)[i], i, OriginBytes(WorkerOutput(artifacts), i))
         == if i >= TWO_32 then Some(OrdinalRange) else WorkerFault(h, artifacts[i], WorkerBytes(artifacts, i))
  {
    hide ContentFault, WorkerBytes, OriginBytes;
    BytesAgree(artifacts, i);
  }

  /**
   The two validation loops agree except for the origin's 32-bit ordinals: a list the executor
   accepts is accepted by the origin, under the version the executor chose, iff it has at most 2^32
   artifacts.
   */
  lemma ExecutorImpliesOrigin(h: Hash, artifacts: seq<TaskArtifact>)
    requires WorkerAcceptable(h, artifacts, |artifacts|)
    ensures var out := WorkerOutput(artifacts);
            OriginAccepts(h, out, VersionFor(out)) <==> |artifacts| <= 0x1_0000_0000
  {
    hide OriginFault, WorkerFault, WorkerBytes, OriginBytes, AnyContent, OriginAcceptable, WorkerAcceptable;
    var out := WorkerOutput(artifacts);
    SoundIsAcceptable(h, artifacts, |artifacts|);
    OriginSoundIsAcceptable(h, out, |out|);
    forall i | 0 <= i < |artifacts|
      ensures OriginFault(h, out[i], i, OriginBytes(out, i)).None? <==> i < TWO_32
    {
      FaultsAgree(h, artifacts, i);
    }
    if |artifacts| > TWO_32 {
      assert OriginFault(h, out[TWO_32], TWO_32, OriginBytes(out, TWO_32)).Some?;
    }
  }

  /** The version the executor stamps is the least protocol version under which the origin accepts the result. */
  lemma VersionIsLeast(h: Hash, artifacts: seq<TaskArtifact>, version: nat)
    requires WorkerAcceptable(h, artifacts, |artifacts|) && |artifacts| <= TWO_32 && version >= 1
    ensures OriginAccepts(h, WorkerOutput(artifacts), version) <==> version >= VersionFor(WorkerOutput(artifacts))
    ensures VersionFor(WorkerOutput(artifacts)) >= 1
  {
    hide WorkerAcceptable, OriginAcceptable;
    ExecutorImpliesOrigin(h, artifacts);
  }

  function Descriptor(): TaskArtifact {
    TaskArtifact("", "", map[], [], 0, "", false)
  }

  lemma DescriptorsAreSound(h: Hash, artifacts: seq<TaskArtifact>)
    requires forall i :: 0 <= i < |artifacts| ==> artifacts[i] == Descriptor()
    ensures WorkerSound(h, artifacts, |artifacts|)
  {
  }

  /** The bound is met: 2^32 + 1 empty descriptors pass the executor and are refused by the origin. */
  lemma OriginRefusesTooMany(h: Hash)
    ensures var artifacts := seq(TWO_32 + 1, _ => Descriptor());
            WorkerAcceptable(h, artifacts, |artifacts|)
            && !OriginAccepts(h, WorkerOutput(artifacts), VersionFor(WorkerOutput(artifacts)))
  {
    hide AnyContent, OriginFault, OriginAcceptable, WorkerAcceptable;
    var artifacts := seq(TWO_32 + 1, _ => Descriptor());
    DescriptorsAreSound(h, artifacts);
    SoundIsAcceptable(h, artifacts, |artifacts|);
    ExecutorImpliesOrigin(h, artifacts);
  }

  // ---------- What is stored ----------

  /** Reading the last artifact off a sound prefix. */
  lemma OriginPrefix(h: Hash, artifacts: seq<ResultArtifact>, n: nat)
    requires 0 < n <= |artifacts| && OriginSound(h, artifacts, n)
    ensures OriginSound(h, artifacts, n - 1) && n <= TWO_32
    ensures var a := artifacts[n - 1];
            && a.artifactId.None?
            && (!a.contentPresent ==> a.content == [])
            && (a.contentPresent ==> ContentFault(h, a.sha256, a.byteLen, a.content, OriginBytes(artifacts, n - 1)).None?)
  {
    hide ContentFault, OriginBytes;
    assert OriginFault(h, artifacts[n - 1], n - 1, OriginBytes(artifacts, n - 1)).None?;
  }

  /**
   Every stored item is a byte-bearing artifact under its own ordinal and that ordinal's id, for this
   task and completion time, with its bytes, digest and length, inline up to 64 KiB, and its media type
   trimmed and lower-cased, or the default one if blank.
   */
  lemma {:induction false} StoredComesFromContent(o: Origin, artifacts: seq<ResultArtifact>, n: nat, m: nat)
    requires n <= |artifacts| && m < |StoredOf(o, artifacts, n)|
    ensures var s := StoredOf(o, artifacts, n)[m];
            && s.ordinal < n && artifacts[s.ordinal].contentPresent && s == ToStored(o, artifacts[s.ordinal], s.ordinal)
            && var a := artifacts[s.ordinal];
               && s.content == a.content && s.digest == a.sha256 && s.byteLen == |a.content| && (s.inline <==> |a.content| <= 65536)
               && s.artifactId == o.idOf(s.ordinal) && s.taskId == o.taskId && s.createdAtMs == o.completedAtMs
               && s.mediaType == if Trim(a.mediaType) == "" then "application/octet-stream" else Lower(Trim(a.mediaType))
  {
    if m < |StoredOf(o, artifacts, n - 1)| {
      StoredComesFromContent(o, artifacts, n - 1, m);
    }
  }

  /** Stored items are in strictly increasing ordinals, so each artifact is stored once and in order. */
  lemma {:induction false} StoredInOrder(o: Origin, artifacts: seq<ResultArtifact>, n: nat, k: nat, m: nat)
    requires n <= |artifacts| && k < m < |StoredOf(o, artifacts, n)|
    ensures StoredOf(o, artifacts, n)[k].ordinal < StoredOf(o, artifacts, n)[m].ordinal
  {
    if m < |StoredOf(o, artifacts, n - 1)| {
      StoredInOrder(o, artifacts, n - 1, k, m);
    } else {
      StoredComesFromContent(o, artifacts, n - 1, k);
    }
  }

  /** Every byte-bearing artifact is stored. */
  lemma {:induction false} ContentIsStored(o: Origin, artifacts: seq<ResultArtifact>, n: nat, i: nat)
    requires i < n <= |artifacts| && artifacts[i].contentPresent
    ensures ToStored(o, artifacts[i], i) in StoredOf(o, artifacts, n)
  {
    if i < n - 1 {
      ContentIsStored(o, artifacts, n - 1, i);
    }
  }

  /** What the origin keeps in place of an artifact: its own descriptor under the ordinal's id, and no bytes. */
  lemma CanonicalIsDescriptor(o: Origin, artifacts: seq<ResultArtifact>, i: nat)
    requires i < |artifacts|
    ensures |CanonicalAll(o, artifacts)| == |artifacts|
    ensures var a, c := artifacts[i], CanonicalAll(o, artifacts)[i];
            && c.artifactId == Some(o.idOf(i)) && c.content == [] && !c.contentPresent
            && c.path == a.path && c.mediaType == a.mediaType && c.metadata == a.metadata
            && c.sha256 == a.sha256 && c.byteLen == a.byteLen
  {
  }

  lemma StoredOrdinal(o: Origin, a: ResultArtifact, n: nat)
    ensures ToStored(o, a, n).ordinal == n && ToStored(o, a, n).content == a.content && ToStored(o, a, n).digest == a.sha256
  {
  }

  /** The stored bytes are the result's bytes, and stay within the cross-node limit. */
  lemma {:induction false} StoredWithinLimit(h: Hash, o: Origin, artifacts: seq<ResultArtifact>, n: nat)
    requires n <= |artifacts| && OriginSound(h, artifacts, n)
    ensures var s := StoredOf(o, artifacts, n);
            StoredBytes(s, |s|) == OriginBytes(artifacts, n) <= MAX_RESULT_BYTES
  {
    hide OriginSound, ContentFault, ToStored;
    if n > 0 {
      OriginPrefix(h, artifacts, n);
      StoredWithinLimit(h, o, artifacts, n - 1);
      var a := artifacts[n - 1];
      if a.contentPresent {
        SoundContent(h, a.sha256, a.byteLen, a.content, OriginBytes(artifacts, n - 1));
        StoredOrdinal(o, a, n - 1);
        var before, s := StoredOf(o, artifacts, n - 1), StoredOf(o, artifacts, n);
        assert s == before + [ToStored(o, a, n - 1)];
        BytesPrefix(before, s, |before|);
      } else {
        assert StoredOf(o, artifacts, n) == StoredOf(o, artifacts, n - 1);
      }
    }
  }

  lemma {:induction false} BytesPrefix(a: seq<StoredArtifact>, b: seq<StoredArtifact>, n: nat)
    requires a <= b && n <= |a|
    ensures StoredBytes(a, n) == StoredBytes(b, n)
  {
    if n > 0 {
      BytesPrefix(a, b, n - 1);
    }
  }

  // ---------- The store agrees ----------

  predicate StoreAccepts(h: Hash, o: Origin, stored: seq<StoredArtifact>) {
    StoreAcceptable(h, o, stored, |stored|)
  }

  /**
   Whatever the origin accepts, the store accepts, except for bytes at the very last ordinal a 32-bit
   counter can name, which has no successor.
   */
  lemma {:induction false} OriginImpliesStore(h: Hash, o: Origin, artifacts: seq<ResultArtifact>, n: nat)
    requires n <= |artifacts| && OriginSound(h, artifacts, n)
    ensures StoreAccepts(h, o, StoredOf(o, artifacts, n)) <==> !(n == TWO_32 && artifacts[n - 1].contentPresent)
  {
    hide OriginSound, ContentFault, ToStored, StoreSound, StoreAcceptable;
    if n == 0 {
      StoreNothing(h, o, []);
    } else {
      OriginPrefix(h, artifacts, n);
      OriginImpliesStore(h, o, artifacts, n - 1);
      if artifacts[n - 1].contentPresent {
        StoreTakesOneMore(h, o, artifacts, n);
      } else {
        assert StoredOf(o, artifacts, n) == StoredOf(o, artifacts, n - 1);
      }
    }
  }

  lemma StorePrefix(h: Hash, o: Origin, a: seq<StoredArtifact>, b: seq<StoredArtifact>)
    requires a <= b && StoreSound(h, o, a, |a|)
    ensures StoreSound(h, o, b, |a|)
  {
    hide StoreFault, StoredBytes;
    forall m | 0 <= m < |a| ensures StoreFault(h, o, b[m], Minimum(b, m), StoredBytes(b, m)).None? {
      BytesPrefix(a, b, m);
      assert StoreFault(h, o, a[m], Minimum(a, m), StoredBytes(a, m)).None?;
    }
  }

  lemma StoreTakesOneMore(h: Hash, o: Origin, artifacts: seq<ResultArtifact>, n: nat)
    requires 0 < n <= |artifacts| && n <= TWO_32 && OriginSound(h, artifacts, n - 1)
    requires artifacts[n - 1].contentPresent
    requires ContentFault(h, artifacts[n - 1].sha256, artifacts[n - 1].byteLen, artifacts[n - 1].content, OriginBytes(artifacts, n - 1)).None?
    requires StoreAccepts(h, o, StoredOf(o, artifacts, n - 1))
    ensures StoreAccepts(h, o, StoredOf(o, artifacts, n)) <==> n != TWO_32
  {
    hide StoreFault, StoreSound, StoreAcceptable, OriginSound, ContentFault, ToStored, StoredBytes, OriginBytes, StoredOf;
    StoredSnoc(o, artifacts, n);
    var before, s := StoredOf(o, artifacts, n - 1), StoredOf(o, artifacts, n);
    var last := |before|;
    StoreSoundIsAcceptable(h, o, before, |before|);
    StoreSoundIsAcceptable(h, o, s, |s|);
    assert s == before + [ToStored(o, artifacts[n - 1], n - 1)];
    StorePrefix(h, o, before, s);
    BytesPrefix(before, s, last);
    StoredWithinLimit(h, o, artifacts, n - 1);
    LastStored(h, o, artifacts[n - 1], n - 1, Minimum(s, last), StoredBytes(s, last));
    StoreSnoc(h, o, s, last);
  }

  lemma LastStored(h: Hash, o: Origin, a: ResultArtifact, ordinal: nat, minimum: nat, before: nat)
    requires ContentFault(h, a.sha256, a.byteLen, a.content, before).None? && minimum <= ordinal < TWO_32
    ensures StoreFault(h, o, ToStored(o, a, ordinal), minimum, before).None? <==> ordinal + 1 != TWO_32
  {
    hide IsDigest;
  }

  /** End to end: a list the executor accepts is taken by both later stages iff its ordinals fit. */
  lemma PipelineAgreement(h: Hash, o: Origin, artifacts: seq<TaskArtifact>)
    requires WorkerAcceptable(h, artifacts, |artifacts|)
    ensures var out := WorkerOutput(artifacts);
            OriginAccepts(h, out, VersionFor(out)) && StoreAccepts(h, o, StoredOf(o, out, |out|))
            <==> |artifacts| < TWO_32 || (|artifacts| == TWO_32 && !artifacts[TWO_32 - 1].contentPresent)
  {
    hide OriginSound, WorkerAcceptable, OriginAcceptable, StoreAccepts, AnyContent;
    var out := WorkerOutput(artifacts);
    ExecutorImpliesOrigin(h, artifacts);
    if |artifacts| <= TWO_32 {
      OriginSoundIsAcceptable(h, out, |out|);
      OriginImpliesStore(h, o, out, |out|);
    }
  }

  // ---------- Nothing is lost ----------

  /** Put the stored bytes back under their descriptors. */
  function Reassemble(canonical: seq<ResultArtifact>, stored: seq<StoredArtifact>): seq<ResultArtifact> {
    if canonical == [] then []
    else
      var n, m := |canonical| - 1, |stored| - 1;
      if m >= 0 && stored[m].ordinal == n
      then Reassemble(canonical[..n], stored[..m]) + [canonical[n].(artifactId := None, content := stored[m].content, contentPresent := true)]
      else Reassemble(canonical[..n], stored) + [canonical[n].(artifactId := None)]
  }

  /** The canonical result together with the stored items determines the received result exactly. */
  lemma {:induction false} CanonicalizationIsLossless(h: Hash, o: Origin, artifacts: seq<ResultArtifact>, n: nat)
    requires n <= |artifacts| && OriginSound(h, artifacts, n)
    ensures Reassemble(CanonicalAll(o, artifacts)[..n], StoredOf(o, artifacts, n)) == artifacts[..n]
  {
    hide OriginSound, ContentFault, StoredOf, Reassemble, Canonical, CanonicalAll, ToStored, OriginBytes;
    CanonicalSize(o, artifacts);
    var canonical := CanonicalAll(o, artifacts);
    StoredSnoc(o, artifacts, n);
    if n == 0 {
      ReassembleNothing();
    } else {
      OriginPrefix(h, artifacts, n);
      TakeSnoc(canonical, n);
      TakeSnoc(artifacts, n);
      CanonicalizationIsLossless(h, o, artifacts, n - 1);
      ReassembleSnoc(o, artifacts[n - 1], n - 1, canonical[..n], StoredOf(o, artifacts, n - 1));
    }
  }

  lemma TakeSnoc<T>(s: seq<T>, n: nat)
    requires 0 < n <= |s|
    ensures s[..n][..n - 1] == s[..n - 1] && s[..n][n - 1] == s[n - 1] && s[..n] == s[..n - 1] + [s[n - 1]]
  {
  }

  lemma CanonicalSize(o: Origin, artifacts: seq<ResultArtifact>)
    ensures |CanonicalAll(o, artifacts)| == |artifacts|
    ensures forall i :: 0 <= i < |artifacts| ==> CanonicalAll(o, artifacts)[i] == Canonical(o, artifacts[i], i)
  {
  }

  lemma ReassembleNothing()
    ensures Reassemble([], []) == []
  {
  }

  lemma {:induction false} StoredSnoc(o: Origin, artifacts: seq<ResultArtifact>, n: nat)
    requires n <= |artifacts|
    ensures n == 0 ==> StoredOf(o, artifacts, n) == []
    ensures n > 0 ==>
              var before := StoredOf(o, artifacts, n - 1);
              && (before != [] ==> before[|before| - 1].ordinal < n - 1)
              && StoredOf(o, artifacts, n) == if artifacts[n - 1].contentPresent then before + [ToStored(o, artifacts[n - 1], n - 1)] else before
  {
    if n > 1 {
      StoredSnoc(o, artifacts, n - 1);
    }
  }

  lemma ReassembleSnoc(o: Origin, a: ResultArtifact, n: nat, canonical: seq<ResultArtifact>, stored: seq<StoredArtifact>)
    requires a.artifactId.None? && (!a.contentPresent ==> a.content == [])
    requires |canonical| == n + 1 && canonical[n] == Canonical(o, a, n)
    requires stored != [] ==> stored[|stored| - 1].ordinal < n
    ensures Reassemble(canonical, if a.contentPresent then stored + [ToStored(o, a, n)] else stored)
         == Reassemble(canonical[..n], stored) + [a]
  {
  }
}
