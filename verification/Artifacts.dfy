/**
 Result artifacts across nodes: the executor's validation of a worker's artifacts, the origin's
 canonicalisation of the result it receives, and the store's own check of what it is handed.
 SHA-256 and the derivation of artifact ids are parameters.
 */
module Artifacts {
  import opened Basics
  import opened Text

  const MAX_RESULT_BYTES: nat := 4 * 1024 * 1024
  const MAX_INLINE_BYTES: nat := 64 * 1024

  datatype Result<+T> = Ok(value: T) | Err(error: Error)
  datatype Error =
    | BadDigest | LengthMismatch | DigestMismatch | TooLarge | NotADescriptor
    | NeedsVersion2 | IdPresent | OrdinalRange | OrdinalOrder | WrongTask | WrongId

  type Bytes = seq<bv8>

  datatype TaskArtifact = TaskArtifact(
    path: string, mediaType: string, metadata: map<string, string>,
    content: Bytes, byteLen: nat, sha256: string, contentPresent: bool)

  datatype ResultArtifact = ResultArtifact(
    path: string, mediaType: string, metadata: map<string, string>, artifactId: Option<string>,
    sha256: string, byteLen: nat, content: Bytes, contentPresent: bool)

  datatype StoredArtifact = StoredArtifact(
    ordinal: nat, artifactId: string, taskId: string, digest: string, mediaType: string,
    byteLen: nat, inline: bool, createdAtMs: int, content: Bytes)

  // ---------- Digests ----------

  predicate IsDigest(s: string) {
    |s| == 64 && forall i :: 0 <= i < |s| ==> IsLowerHex(s[i])
  }

  const ZERO_DIGEST: string := seq(64, _ => '0')

  /** SHA-256 printed as `{:x}`: some function onto 64 lowercase hexadecimal digits. */
  type Hash = h: Bytes -> string | forall b: Bytes :: IsDigest(h(b)) witness (b: Bytes) => ZERO_DIGEST

  /** `Digest::new`: trim, lower-case, then check. */
  function NewDigest(value: string): Option<string> {
    var normalized := Lower(Trim(value));
    if |normalized| != 64 || exists i :: 0 <= i < |normalized| && !IsHex(normalized[i]) then None else Some(normalized)
  }

  function ParseLowercaseDigest(value: string): Option<string> {
    var digest := NewDigest(value);
    if digest.None? || digest.value != value then None else digest
  }

  /** The normalising parser followed by a comparison accepts exactly the 64-digit lowercase strings, unchanged. */
  lemma DigestParseIsExact(value: string)
    ensures ParseLowercaseDigest(value) == if IsDigest(value) then Some(value) else None
  {
  }

  // ---------- What is asked of one artifact ----------

  /** A byte-bearing artifact declares its own digest and length. */
  predicate Declares(h: Hash, sha256: string, byteLen: nat, content: Bytes) {
    IsDigest(sha256) && sha256 == h(content) && byteLen == |content|
  }

  /** A descriptor carries nothing. */
  predicate Bare(sha256: string, byteLen: nat, content: Bytes) {
    content == [] && sha256 == "" && byteLen == 0
  }

  /** What a refusal says of an artifact that comes after `before` accepted bytes: the first thing asked of it that it misses. */
  predicate Misses(h: Hash, present: bool, sha256: string, byteLen: nat, content: Bytes, before: nat, error: Error) {
    match error
    case NotADescriptor => !present && !Bare(sha256, byteLen, content)
    case BadDigest => present && !IsDigest(sha256)
    case LengthMismatch => present && IsDigest(sha256) && byteLen != |content|
    case DigestMismatch => present && IsDigest(sha256) && byteLen == |content| && sha256 != h(content)
    case TooLarge => present && Declares(h, sha256, byteLen, content) && before + |content| > 4 * 1024 * 1024
    case _ => false
  }

  // ---------- What is wrong with one artifact ----------

  /** The faults of a byte-bearing artifact, in the order both sides test them. */
  function ContentFault(h: Hash, sha256: string, byteLen: nat, content: Bytes, before: nat): Option<Error> {
    if !IsDigest(sha256) then Some(BadDigest)
    else if byteLen != |content| then Some(LengthMismatch)
    else if sha256 != h(content) then Some(DigestMismatch)
    else if before + |content| > MAX_RESULT_BYTES then Some(TooLarge)
    else None
  }

  function DescriptorFault(sha256: string, byteLen: nat, content: Bytes): Option<Error> {
    if content != [] || sha256 != "" || byteLen != 0 then Some(NotADescriptor) else None
  }

  function WorkerFault(h: Hash, a: TaskArtifact, before: nat): Option<Error> {
    if a.contentPresent then ContentFault(h, a.sha256, a.byteLen, a.content, before)
    else DescriptorFault(a.sha256, a.byteLen, a.content)
  }

  lemma FaultIsMiss(h: Hash, present: bool, sha256: string, byteLen: nat, content: Bytes, before: nat)
    ensures var fault := if present then ContentFault(h, sha256, byteLen, content, before) else DescriptorFault(sha256, byteLen, content);
            && (fault.None? <==> if present then Declares(h, sha256, byteLen, content) && before + |content| <= 4 * 1024 * 1024
                                 else Bare(sha256, byteLen, content))
            && (fault.Some? ==> Misses(h, present, sha256, byteLen, content, before, fault.value))
  {
    hide IsDigest;
  }

  function OriginFault(h: Hash, a: ResultArtifact, index: nat, before: nat): Option<Error> {
    if a.artifactId.Some? then Some(IdPresent)
    else if index >= TWO_32 then Some(OrdinalRange)
    else if a.contentPresent then ContentFault(h, a.sha256, a.byteLen, a.content, before)
    else DescriptorFault(a.sha256, a.byteLen, a.content)
  }

  // ---------- The executor ----------

  /** Bytes carried by the first `n` artifacts. */
  function WorkerBytes(artifacts: seq<TaskArtifact>, n: nat): nat
    requires n <= |artifacts|
  {
    if n == 0 then 0
    else WorkerBytes(artifacts, n - 1) + if artifacts[n - 1].contentPresent then |artifacts[n - 1].content| else 0
  }

  predicate WorkerSound(h: Hash, artifacts: seq<TaskArtifact>, n: nat)
    requires n <= |artifacts|
  {
    forall i :: 0 <= i < n ==> WorkerFault(h, artifacts[i], WorkerBytes(artifacts, i)).None?
  }

  predicate AsDeclared(h: Hash, a: TaskArtifact) {
    if a.contentPresent then Declares(h, a.sha256, a.byteLen, a.content) else Bare(a.sha256, a.byteLen, a.content)
  }

  /** The first `n` artifacts are as declared, and their bytes together stay within 4 MiB. */
  predicate WorkerAcceptable(h: Hash, artifacts: seq<TaskArtifact>, n: nat)
    requires n <= |artifacts|
  {
    (forall i :: 0 <= i < n ==> AsDeclared(h, artifacts[i])) && WorkerBytes(artifacts, n) <= 4 * 1024 * 1024
  }

  lemma AcceptableSnoc(h: Hash, artifacts: seq<TaskArtifact>, n: nat)
    requires n < |artifacts|
    ensures WorkerAcceptable(h, artifacts, n) ==> WorkerBytes(artifacts, n) <= 4 * 1024 * 1024
    ensures WorkerAcceptable(h, artifacts, n + 1) <==>
              WorkerAcceptable(h, artifacts, n) && AsDeclared(h, artifacts[n]) && WorkerBytes(artifacts, n + 1) <= 4 * 1024 * 1024
    ensures WorkerBytes(artifacts, n + 1) == WorkerBytes(artifacts, n) + if artifacts[n].contentPresent then |artifacts[n].content| else 0
  {
    hide AsDeclared;
  }

  lemma NothingIsAcceptable(h: Hash, artifacts: seq<TaskArtifact>)
    ensures WorkerSound(h, artifacts, 0) && WorkerAcceptable(h, artifacts, 0)
  {
  }

  lemma SoundSnoc(h: Hash, artifacts: seq<TaskArtifact>, n: nat)
    requires n < |artifacts|
    ensures WorkerSound(h, artifacts, n + 1) <==>
              WorkerSound(h, artifacts, n) && WorkerFault(h, artifacts[n], WorkerBytes(artifacts, n)).None?
  {
    hide WorkerFault, WorkerBytes;
  }

  /** The loop's tests, artifact by artifact, are that. */
  lemma {:induction false} SoundIsAcceptable(h: Hash, artifacts: seq<TaskArtifact>, n: nat)
    requires n <= |artifacts|
    ensures WorkerSound(h, artifacts, n) <==> WorkerAcceptable(h, artifacts, n)
  {
    hide WorkerSound, WorkerAcceptable, WorkerBytes, ContentFault, DescriptorFault, Declares, Bare, Misses;
    if n == 0 {
      NothingIsAcceptable(h, artifacts);
    } else {
      var a := artifacts[n - 1];
      SoundIsAcceptable(h, artifacts, n - 1);
      AcceptableSnoc(h, artifacts, n - 1);
      SoundSnoc(h, artifacts, n - 1);
      FaultIsMiss(h, a.contentPresent, a.sha256, a.byteLen, a.content, WorkerBytes(artifacts, n - 1));
    }
  }

  function ToResult(a: TaskArtifact): ResultArtifact {
    ResultArtifact(a.path, a.mediaType, a.metadata, None, a.sha256, a.byteLen, a.content, a.contentPresent)
  }

  function WorkerOutput(artifacts: seq<TaskArtifact>): seq<ResultArtifact> {
    seq(|artifacts|, i requires 0 <= i < |artifacts| => ToResult(artifacts[i]))
  }

  predicate AnyContent(artifacts: seq<ResultArtifact>) {
    exists i :: 0 <= i < |artifacts| && artifacts[i].contentPresent
  }

  /** The tests both loops make on a byte-bearing artifact. */
  method CheckContent(h: Hash, sha256: string, byteLen: nat, content: Bytes, before: nat) returns (fault: Option<Error>)
    ensures fault == ContentFault(h, sha256, byteLen, content, before)
    ensures fault.None? <==> Declares(h, sha256, byteLen, content) && before + |content| <= 4 * 1024 * 1024
    ensures fault.Some? ==> Misses(h, true, sha256, byteLen, content, before, fault.value)
  {
    hide ParseLowercaseDigest, IsDigest;
    DigestParseIsExact(sha256);
    var digest := ParseLowercaseDigest(sha256);
    if digest.None? {
      return Some(BadDigest);
    }
    if byteLen != |content| {
      return Some(LengthMismatch);
    }
    if digest.value != h(content) {
      return Some(DigestMismatch);
    }
    if before + |content| > MAX_RESULT_BYTES {
      return Some(TooLarge);
    }
    return None;
  }

  /** Each artifact crosses with every field it had and no artifact id. */
  predicate Crosses(a: TaskArtifact, r: ResultArtifact) {
    && r.path == a.path && r.mediaType == a.mediaType && r.metadata == a.metadata && r.artifactId.None?
    && r.sha256 == a.sha256 && r.byteLen == a.byteLen && r.content == a.content && r.contentPresent == a.contentPresent
  }

  /** `validate_worker_result_artifacts`: accepts exactly what is acceptable, and otherwise names the first artifact that is not. */
  method ValidateWorkerArtifacts(h: Hash, artifacts: seq<TaskArtifact>) returns (r: Result<(seq<ResultArtifact>, bool)>)
    ensures r.Ok? <==> WorkerAcceptable(h, artifacts, |artifacts|)
    ensures r.Ok? ==> r.value == (WorkerOutput(artifacts), AnyContent(WorkerOutput(artifacts)))
    ensures r.Ok? ==> |r.value.0| == |artifacts| && forall i :: 0 <= i < |artifacts| ==> Crosses(artifacts[i], r.value.0[i])
    ensures r.Ok? ==> (r.value.1 <==> exists i :: 0 <= i < |artifacts| && artifacts[i].contentPresent)
    ensures r.Err? ==> exists i :: 0 <= i < |artifacts| && WorkerAcceptable(h, artifacts, i)
                         && var a := artifacts[i];
                            Misses(h, a.contentPresent, a.sha256, a.byteLen, a.content, WorkerBytes(artifacts, i), r.error)
  {
    hide ContentFault, AnyContent, WorkerSound, WorkerBytes, WorkerAcceptable, Misses, IsDigest;
    var aggregate, hasContent, result := 0, false, [];
    SoundIsAcceptable(h, artifacts, |artifacts|);
    WorkerStart(h, artifacts);
    for n := 0 to |artifacts|
      invariant WorkerSound(h, artifacts, n)
      invariant aggregate == WorkerBytes(artifacts, n)
      invariant |result| == n && forall i :: 0 <= i < n ==> result[i] == ToResult(artifacts[i])
      invariant hasContent <==> AnyContent(result)
    {
      var a := artifacts[n];
      WorkerSnoc(h, artifacts, n);
      SoundIsAcceptable(h, artifacts, n);
      FaultIsMiss(h, a.contentPresent, a.sha256, a.byteLen, a.content, aggregate);
      AnyContentSnoc(result, ToResult(a));
      if a.contentPresent {
        var fault := CheckContent(h, a.sha256, a.byteLen, a.content, aggregate);
        if fault.Some? {
          return Err(fault.value);
        }
        SoundLength(h, a, aggregate);
        aggregate := aggregate + |a.content|;
        hasContent := true;
        result := result + [ResultArtifact(a.path, a.mediaType, a.metadata, None, a.sha256, |a.content|, a.content, true)];
      } else {
        if a.content != [] || a.sha256 != "" || a.byteLen != 0 {
          return Err(NotADescriptor);
        }
        result := result + [ResultArtifact(a.path, a.mediaType, a.metadata, None, "", 0, [], false)];
      }
    }
    assert result == WorkerOutput(artifacts);
    OutputContent(artifacts);
    r := Ok((result, hasContent));
  }

  lemma OutputContent(artifacts: seq<TaskArtifact>)
    ensures AnyContent(WorkerOutput(artifacts)) <==> exists i :: 0 <= i < |artifacts| && artifacts[i].contentPresent
  {
    var out := WorkerOutput(artifacts);
    assert forall i :: 0 <= i < |artifacts| ==> out[i].contentPresent == artifacts[i].contentPresent;
  }

  lemma WorkerStart(h: Hash, artifacts: seq<TaskArtifact>)
    ensures WorkerSound(h, artifacts, 0) && WorkerBytes(artifacts, 0) == 0 && !AnyContent([])
  {
  }

  lemma WorkerSnoc(h: Hash, artifacts: seq<TaskArtifact>, n: nat)
    requires n < |artifacts| && WorkerSound(h, artifacts, n)
    ensures var fault := WorkerFault(h, artifacts[n], WorkerBytes(artifacts, n));
            && (WorkerSound(h, artifacts, n + 1) <==> fault.None?)
            && (fault.Some? ==> !WorkerSound(h, artifacts, |artifacts|))
    ensures WorkerBytes(artifacts, n + 1) == WorkerBytes(artifacts, n) + if artifacts[n].contentPresent then |artifacts[n].content| else 0
  {
  }

  lemma SoundLength(h: Hash, a: TaskArtifact, before: nat)
    requires ContentFault(h, a.sha256, a.byteLen, a.content, before).None?
    ensures a.byteLen == |a.content|
  {
  }

  lemma AnyContentSnoc(s: seq<ResultArtifact>, a: ResultArtifact)
    ensures AnyContent(s + [a]) <==> AnyContent(s) || a.contentPresent
  {
    assert (s + [a])[|s|] == a;
    if AnyContent(s) {
      var i :| 0 <= i < |s| && s[i].contentPresent;
      assert (s + [a])[i].contentPresent;
    }
  }
}
