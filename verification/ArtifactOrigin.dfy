/** The origin's half of the artifact pipeline, and the store's own check. */
module ArtifactOrigin {
  import opened Basics
  import opened Text
  import opened Artifacts

  /** The task a result belongs to: its id, the derivation of its artifact ids, and its completion time. */
  datatype Origin = Origin(taskId: string, idOf: nat -> string, completedAtMs: int)

  function NewMediaType(value: string): string {
    var normalized := Lower(Trim(value));
    if normalized == "" then "application/octet-stream" else normalized
  }

  /** Bytes carried by the first `n` artifacts. */
  function OriginBytes(artifacts: seq<ResultArtifact>, n: nat): nat
    requires n <= |artifacts|
  {
    if n == 0 then 0
    else OriginBytes(artifacts, n - 1) + if artifacts[n - 1].contentPresent then |artifacts[n - 1].content| else 0
  }

  predicate OriginSound(h: Hash, artifacts: seq<ResultArtifact>, n: nat)
    requires n <= |artifacts|
  {
    forall i :: 0 <= i < n ==> OriginFault(h, artifacts[i], i, OriginBytes(artifacts, i)).None?
  }

  predicate OriginDeclared(h: Hash, a: ResultArtifact) {
    && a.artifactId.None?
    && if a.contentPresent then Declares(h, a.sha256, a.byteLen, a.content) else Bare(a.sha256, a.byteLen, a.content)
  }

  /** The first `n` artifacts have no id yet and are as declared, 32 bits number them, and their bytes stay within 4 MiB. */
  predicate OriginAcceptable(h: Hash, artifacts: seq<ResultArtifact>, n: nat)
    requires n <= |artifacts|
  {
    && (forall i :: 0 <= i < n ==> OriginDeclared(h, artifacts[i]))
    && n <= 0x1_0000_0000 && OriginBytes(artifacts, n) <= 4 * 1024 * 1024
  }

  /** What a refusal says of the artifact at `i`: the first thing asked of it that it misses. */
  predicate OriginMisses(h: Hash, a: ResultArtifact, i: nat, before: nat, error: Error) {
    match error
    case IdPresent => a.artifactId.Some?
    case OrdinalRange => a.artifactId.None? && i >= 0x1_0000_0000
    case _ => a.artifactId.None? && i < 0x1_0000_0000 && Misses(h, a.contentPresent, a.sha256, a.byteLen, a.content, before, error)
  }

  lemma OriginFaultIsMiss(h: Hash, a: ResultArtifact, i: nat, before: nat)
    ensures OriginFault(h, a, i, before).None? <==>
              OriginDeclared(h, a) && i < 0x1_0000_0000 && (a.contentPresent ==> before + |a.content| <= 4 * 1024 * 1024)
    ensures OriginFault(h, a, i, before).Some? ==> OriginMisses(h, a, i, before, OriginFault(h, a, i, before).value)
  {
    hide ContentFault, DescriptorFault, Declares, Bare, IsDigest;
    FaultIsMiss(h, a.contentPresent, a.sha256, a.byteLen, a.content, before);
  }

  lemma OriginAcceptableSnoc(h: Hash, artifacts: seq<ResultArtifact>, n: nat)
    requires n < |artifacts|
    ensures OriginAcceptable(h, artifacts, n) ==> OriginBytes(artifacts, n) <= 4 * 1024 * 1024
    ensures OriginAcceptable(h, artifacts, n + 1) <==>
              && OriginAcceptable(h, artifacts, n) && OriginDeclared(h, artifacts[n]) && n < 0x1_0000_0000
              && OriginBytes(artifacts, n + 1) <= 4 * 1024 * 1024
    ensures OriginBytes(artifacts, n + 1) == OriginBytes(artifacts, n) + if artifacts[n].contentPresent then |artifacts[n].content| else 0
    ensures OriginSound(h, artifacts, n + 1) <==>
              OriginSound(h, artifacts, n) && OriginFault(h, artifacts[n], n, OriginBytes(artifacts, n)).None?
  {
    hide OriginDeclared, OriginFault;
  }

  lemma OriginNothing(h: Hash, artifacts: seq<ResultArtifact>)
    ensures OriginSound(h, artifacts, 0) && OriginAcceptable(h, artifacts, 0)
  {
  }

  /** The origin's tests, artifact by artifact, are that. */
  lemma {:induction false} OriginSoundIsAcceptable(h: Hash, artifacts: seq<ResultArtifact>, n: nat)
    requires n <= |artifacts|
    ensures OriginSound(h, artifacts, n) <==> OriginAcceptable(h, artifacts, n)
  {
    hide OriginSound, OriginAcceptable, OriginBytes, OriginFault, OriginDeclared, OriginMisses;
    if n == 0 {
      OriginNothing(h, artifacts);
    } else {
      OriginSoundIsAcceptable(h, artifacts, n - 1);
      OriginAcceptableSnoc(h, artifacts, n - 1);
      OriginFaultIsMiss(h, artifacts[n - 1], n - 1, OriginBytes(artifacts, n - 1));
    }
  }

  /** What the origin keeps in the result: the descriptor under its own id, without the bytes. */
  function Canonical(o: Origin, a: ResultArtifact, ordinal: nat): ResultArtifact {
    a.(artifactId := Some(o.idOf(ordinal)), content := [], contentPresent := false)
  }

  /** What the origin hands to the store. */
  function ToStored(o: Origin, a: ResultArtifact, ordinal: nat): StoredArtifact {
    StoredArtifact(ordinal, o.idOf(ordinal), o.taskId, a.sha256, NewMediaType(a.mediaType),
                   |a.content|, |a.content| <= MAX_INLINE_BYTES, o.completedAtMs, a.content)
  }

  function StoredOf(o: Origin, artifacts: seq<ResultArtifact>, n: nat): seq<StoredArtifact>
    requires n <= |artifacts|
  {
    if n == 0 then []
    else StoredOf(o, artifacts, n - 1) + if artifacts[n - 1].contentPresent then [ToStored(o, artifacts[n - 1], n - 1)] else []
  }

  function CanonicalAll(o: Origin, artifacts: seq<ResultArtifact>): seq<ResultArtifact> {
    seq(|artifacts|, i requires 0 <= i < |artifacts| => Canonical(o, artifacts[i], i))
  }

  lemma OriginStart(h: Hash, o: Origin, artifacts: seq<ResultArtifact>)
    ensures OriginSound(h, artifacts, 0) && OriginBytes(artifacts, 0) == 0 && StoredOf(o, artifacts, 0) == []
  {
  }

  lemma OriginSnoc(h: Hash, o: Origin, artifacts: seq<ResultArtifact>, n: nat)
    requires n < |artifacts| && OriginSound(h, artifacts, n)
    ensures var fault := OriginFault(h, artifacts[n], n, OriginBytes(artifacts, n));
            && (OriginSound(h, artifacts, n + 1) <==> fault.None?)
            && (fault.Some? ==> !OriginSound(h, artifacts, |artifacts|))
    ensures OriginBytes(artifacts, n + 1) == OriginBytes(artifacts, n) + if artifacts[n].contentPresent then |artifacts[n].content| else 0
    ensures StoredOf(o, artifacts, n + 1)
         == StoredOf(o, artifacts, n) + if artifacts[n].contentPresent then [ToStored(o, artifacts[n], n)] else []
  {
  }

  /** The faulty artifact as a refusal leaves it: it has its id already, unless the fault was found before that. */
  function LeftAt(o: Origin, a: ResultArtifact, i: nat, error: Error): ResultArtifact {
    if error == IdPresent || error == OrdinalRange then a else a.(artifactId := Some(o.idOf(i)))
  }

  /** How far a refused canonicalisation got: rewritten before the faulty artifact, untouched after it. */
  ghost predicate StoppedAt(h: Hash, o: Origin, before: seq<ResultArtifact>, after: seq<ResultArtifact>, error: Error, i: nat) {
    && |after| == |before| && i < |before|
    && OriginAcceptable(h, before, i) && OriginMisses(h, before[i], i, OriginBytes(before, i), error)
    && (forall j :: 0 <= j < i ==> after[j] == Canonical(o, before[j], j))
    && after[i] == LeftAt(o, before[i], i, error)
    && (forall j :: i < j < |before| ==> after[j] == before[j])
  }

  /** One turn of the origin's loop: the artifact at `n` is checked, given its id, and stripped of its bytes. */
  method CanonicalizeOne(h: Hash, o: Origin, artifacts: array<ResultArtifact>, n: nat, aggregate: nat)
    returns (fault: Option<Error>, taken: seq<StoredArtifact>)
    requires n < artifacts.Length
    modifies artifacts
    ensures forall j :: 0 <= j < artifacts.Length && j != n ==> artifacts[j] == old(artifacts[j])
    ensures fault == OriginFault(h, old(artifacts[n]), n, aggregate)
    ensures fault.Some? ==> artifacts[n] == LeftAt(o, old(artifacts[n]), n, fault.value)
    ensures fault.None? ==>
              && artifacts[n] == Canonical(o, old(artifacts[n]), n)
              && taken == if old(artifacts[n]).contentPresent then [ToStored(o, old(artifacts[n]), n)] else []
  {
    hide ContentFault;
    taken := [];
    var a := artifacts[n];
    if a.artifactId.Some? {
      return Some(IdPresent), taken;
    }
    if n >= TWO_32 {
      return Some(OrdinalRange), taken;
    }
    artifacts[n] := a.(artifactId := Some(o.idOf(n)));
    if !a.contentPresent {
      if a.content != [] || a.sha256 != "" || a.byteLen != 0 {
        return Some(NotADescriptor), taken;
      }
      return None, taken;
    }
    fault := CheckContent(h, a.sha256, a.byteLen, a.content, aggregate);
    ContentFaultKind(h, a.sha256, a.byteLen, a.content, aggregate);
    if fault.None? {
      SoundContent(h, a.sha256, a.byteLen, a.content, aggregate);
      artifacts[n] := artifacts[n].(content := [], byteLen := |a.content|, contentPresent := false);
      taken := [ToStored(o, a, n)];
    }
  }

  /** `canonicalize_origin_result_artifacts`, in place. */
  method Canonicalize(h: Hash, o: Origin, version: nat, artifacts: array<ResultArtifact>) returns (r: Result<seq<StoredArtifact>>)
    modifies artifacts
    ensures var before := old(artifacts[..]);
            if AnyContent(before) && version < 2 then
              r == Err(NeedsVersion2) && artifacts[..] == before
            else if OriginAcceptable(h, before, |before|) then
              r == Ok(StoredOf(o, before, |before|)) && artifacts[..] == CanonicalAll(o, before)
            else
              r.Err? && exists i :: StoppedAt(h, o, before, artifacts[..], r.error, i)
  {
    hide OriginFault, OriginSound, OriginAcceptable, OriginMisses, OriginBytes, StoredOf, AnyContent, Canonical, ToStored;
    ghost var before := artifacts[..];
    OriginSoundIsAcceptable(h, before, |before|);
    var hasContent := HasContent(artifacts[..]);
    if hasContent && version < 2 {
      return Err(NeedsVersion2);
    }
    OriginStart(h, o, before);
    var aggregate, stored := 0, [];
    for n := 0 to artifacts.Length
      invariant OriginSound(h, before, n)
      invariant aggregate == OriginBytes(before, n)
      invariant stored == StoredOf(o, before, n)
      invariant forall j :: 0 <= j < n ==> artifacts[j] == Canonical(o, before[j], j)
      invariant forall j :: n <= j < artifacts.Length ==> artifacts[j] == before[j]
    {
      OriginSnoc(h, o, before, n);
      OriginSoundIsAcceptable(h, before, n);
      OriginFaultIsMiss(h, before[n], n, aggregate);
      var present, length := artifacts[n].contentPresent, |artifacts[n].content|;
      var fault, taken := CanonicalizeOne(h, o, artifacts, n, aggregate);
      if fault.Some? {
        assert StoppedAt(h, o, before, artifacts[..], fault.value, n);
        return Err(fault.value);
      }
      if present {
        aggregate := aggregate + length;
      }
      stored := stored + taken;
    }
    assert artifacts[..] == CanonicalAll(o, before);
    r := Ok(stored);
  }

  lemma SoundContent(h: Hash, sha256: string, byteLen: nat, content: Bytes, before: nat)
    requires ContentFault(h, sha256, byteLen, content, before).None?
    ensures byteLen == |content| && sha256 == h(content) && before + |content| <= MAX_RESULT_BYTES
  {
  }

  lemma ContentFaultKind(h: Hash, sha256: string, byteLen: nat, content: Bytes, before: nat)
    ensures ContentFault(h, sha256, byteLen, content, before) !in {Some(IdPresent), Some(OrdinalRange)}
  {
  }

  method HasContent(artifacts: seq<ResultArtifact>) returns (found: bool)
    ensures found <==> AnyContent(artifacts)
  {
    found := false;
    for i := 0 to |artifacts|
      invariant !found && forall j :: 0 <= j < i ==> !artifacts[j].contentPresent
    {
      if artifacts[i].contentPresent {
        return true;
      }
    }
  }

  // ---------- The store ----------

  /** The store's faults: ordinals must increase and leave room for a successor below 2^32. */
  function StoreFault(h: Hash, o: Origin, a: StoredArtifact, minimum: nat, before: nat): Option<Error> {
    if a.ordinal < minimum || a.ordinal + 1 >= TWO_32 then Some(OrdinalOrder)
    else if a.taskId != o.taskId then Some(WrongTask)
    else if a.artifactId != o.idOf(a.ordinal) then Some(WrongId)
    else if a.byteLen != |a.content| then Some(LengthMismatch)
    else if a.digest != h(a.content) then Some(DigestMismatch)
    else if before + |a.content| > MAX_RESULT_BYTES then Some(TooLarge)
    else None
  }

  function StoredBytes(stored: seq<StoredArtifact>, n: nat): nat
    requires n <= |stored|
  {
    if n == 0 then 0 else StoredBytes(stored, n - 1) + |stored[n - 1].content|
  }

  function Minimum(stored: seq<StoredArtifact>, n: nat): nat
    requires n <= |stored|
  {
    if n == 0 then 0 else stored[n - 1].ordinal + 1
  }

  predicate StoreSound(h: Hash, o: Origin, stored: seq<StoredArtifact>, n: nat)
    requires n <= |stored|
  {
    forall m :: 0 <= m < n ==> StoreFault(h, o, stored[m], Minimum(stored, m), StoredBytes(stored, m)).None?
  }

  lemma StoreStart(h: Hash, o: Origin, stored: seq<StoredArtifact>)
    ensures StoreSound(h, o, stored, 0) && StoredBytes(stored, 0) == 0
  {
  }

  lemma StoreSnoc(h: Hash, o: Origin, stored: seq<StoredArtifact>, n: nat)
    requires n < |stored| && StoreSound(h, o, stored, n)
    ensures var fault := StoreFault(h, o, stored[n], Minimum(stored, n), StoredBytes(stored, n));
            && (StoreSound(h, o, stored, n + 1) <==> fault.None?)
            && (fault.Some? ==> !StoreSound(h, o, stored, |stored|))
    ensures StoredBytes(stored, n + 1) == StoredBytes(stored, n) + |stored[n].content|
  {
    hide StoreFault;
  }

  /** A stored item belongs to the task under the id of its ordinal, and has its own length and digest. */
  predicate StoredDeclared(h: Hash, o: Origin, a: StoredArtifact) {
    a.taskId == o.taskId && a.artifactId == o.idOf(a.ordinal) && a.byteLen == |a.content| && a.digest == h(a.content)
  }

  /** The first `n` items are as declared, under increasing ordinals below 2^32 - 1, and their bytes stay within 4 MiB. */
  predicate StoreAcceptable(h: Hash, o: Origin, stored: seq<StoredArtifact>, n: nat)
    requires n <= |stored|
  {
    && (forall m :: 0 <= m < n ==> StoredDeclared(h, o, stored[m]) && stored[m].ordinal < 0xFFFF_FFFF)
    && (forall m :: 0 < m < n ==> stored[m - 1].ordinal < stored[m].ordinal)
    && StoredBytes(stored, n) <= 4 * 1024 * 1024
  }

  /** What the store's refusal says of an item after ordinals below `minimum` and `before` bytes. */
  predicate StoreMisses(h: Hash, o: Origin, a: StoredArtifact, minimum: nat, before: nat, error: Error) {
    var numbered := minimum <= a.ordinal < 0xFFFF_FFFF;
    match error
    case OrdinalOrder => !numbered
    case WrongTask => numbered && a.taskId != o.taskId
    case WrongId => numbered && a.taskId == o.taskId && a.artifactId != o.idOf(a.ordinal)
    case LengthMismatch => numbered && a.taskId == o.taskId && a.artifactId == o.idOf(a.ordinal) && a.byteLen != |a.content|
    case DigestMismatch =>
      numbered && a.taskId == o.taskId && a.artifactId == o.idOf(a.ordinal) && a.byteLen == |a.content| && a.digest != h(a.content)
    case TooLarge => numbered && StoredDeclared(h, o, a) && before + |a.content| > 4 * 1024 * 1024
    case _ => false
  }

  lemma StoreFaultIsMiss(h: Hash, o: Origin, a: StoredArtifact, minimum: nat, before: nat)
    ensures StoreFault(h, o, a, minimum, before).None? <==>
              StoredDeclared(h, o, a) && minimum <= a.ordinal < 0xFFFF_FFFF && before + |a.content| <= 4 * 1024 * 1024
    ensures StoreFault(h, o, a, minimum, before).Some? ==> StoreMisses(h, o, a, minimum, before, StoreFault(h, o, a, minimum, before).value)
  {
  }

  lemma StoreAcceptableSnoc(h: Hash, o: Origin, stored: seq<StoredArtifact>, n: nat)
    requires n < |stored|
    ensures StoreAcceptable(h, o, stored, n + 1) <==>
              && StoreAcceptable(h, o, stored, n) && StoredDeclared(h, o, stored[n])
              && Minimum(stored, n) <= stored[n].ordinal < 0xFFFF_FFFF && StoredBytes(stored, n + 1) <= 4 * 1024 * 1024
    ensures StoredBytes(stored, n + 1) == StoredBytes(stored, n) + |stored[n].content|
    ensures StoreSound(h, o, stored, n + 1) <==>
              StoreSound(h, o, stored, n) && StoreFault(h, o, stored[n], Minimum(stored, n), StoredBytes(stored, n)).None?
  {
    hide StoredDeclared, StoreFault;
  }

  lemma StoreNothing(h: Hash, o: Origin, stored: seq<StoredArtifact>)
    ensures StoreSound(h, o, stored, 0) && StoreAcceptable(h, o, stored, 0)
  {
  }

  /** The store's tests, item by item, are that. */
  lemma {:induction false} StoreSoundIsAcceptable(h: Hash, o: Origin, stored: seq<StoredArtifact>, n: nat)
    requires n <= |stored|
    ensures StoreSound(h, o, stored, n) <==> StoreAcceptable(h, o, stored, n)
  {
    hide StoreSound, StoreAcceptable, StoredBytes, StoreFault, StoredDeclared, StoreMisses, Minimum;
    if n == 0 {
      StoreNothing(h, o, stored);
    } else {
      StoreSoundIsAcceptable(h, o, stored, n - 1);
      StoreAcceptableSnoc(h, o, stored, n - 1);
      StoreFaultIsMiss(h, o, stored[n - 1], Minimum(stored, n - 1), StoredBytes(stored, n - 1));
    }
  }

  /** `validate_origin_result_artifacts`. */
  method ValidateStored(h: Hash, o: Origin, stored: seq<StoredArtifact>) returns (fault: Option<Error>)
    ensures fault.None? <==> StoreAcceptable(h, o, stored, |stored|)
    ensures fault.Some? ==> exists m :: 0 <= m < |stored| && StoreAcceptable(h, o, stored, m)
                              && StoreMisses(h, o, stored[m], Minimum(stored, m), StoredBytes(stored, m), fault.value)
  {
    hide StoreFault, StoreSound, StoredBytes, StoreAcceptable, StoreMisses;
    StoreStart(h, o, stored);
    StoreSoundIsAcceptable(h, o, stored, |stored|);
    var aggregate, minimum := 0, 0;
    for n := 0 to |stored|
      invariant aggregate == StoredBytes(stored, n) && minimum == Minimum(stored, n) && StoreSound(h, o, stored, n)
    {
      var a := stored[n];
      StoreSnoc(h, o, stored, n);
      StoreSoundIsAcceptable(h, o, stored, n);
      StoreFaultIsMiss(h, o, a, minimum, aggregate);
      fault := StoreFault(h, o, a, minimum, aggregate);
      if fault.Some? {
        return;
      }
      minimum := a.ordinal + 1;
      aggregate := aggregate + |a.content|;
    }
    fault := None;
  }
}
