/** Reconnect and redelivery delays: doubling with a cap, and a jitter drawn by wrapping 64-bit arithmetic. */
module Backoff {
  import opened Basics

  /** A duration in nanoseconds; the largest has 2^64 - 1 seconds and 999999999 nanoseconds. */
  const DURATION_MAX: nat := TWO_64 * 1_000_000_000 - 1
  const NANOS_PER_MS: nat := 1_000_000

  type Duration = d: nat | d <= DURATION_MAX

  function SaturatingMul(d: Duration, k: nat): Duration {
    Min(d * k, DURATION_MAX)
  }

  function NextReconnectDelay(current: Duration, maximum: Duration): Duration {
    Min(SaturatingMul(current, 2), maximum)
  }

  /** 64-bit FNV-1a over the bytes of the value. */
  function StableJitterSeed(value: seq<bv8>): bv64 {
    if value == [] then 0xcbf29ce484222325
    else (StableJitterSeed(value[..|value| - 1]) ^ (value[|value| - 1] as bv64)) * 0x100000001b3
  }

  /** The empty text gives the FNV offset basis, and "a" the published FNV-1a value. */
  lemma SeedIsFnv()
    ensures StableJitterSeed([]) == 0xcbf29ce484222325 && StableJitterSeed([0x61]) == 0xaf63dc4c8601ec8c
  {
    assert [0x61 as bv8][..0] == [];
    assert ((0xcbf29ce484222325 as bv64) ^ 0x61) * 0x100000001b3 == 0xaf63dc4c8601ec8c;
  }

  /** The percentage the jitter applies: always between 80 and 120. */
  function JitterPercent(seed: nat, attempt: nat): (percent: nat)
    ensures 80 <= percent <= 120
  {
    var mixed := ((seed + attempt * 0x9e3779b97f4a7c15 % TWO_64) % TWO_64) * 0xbf58476d1ce4e5b9 % TWO_64;
    80 + mixed % 41
  }

  function JitteredDelay(base: Duration, maximum: Duration, seed: nat, attempt: nat): Duration {
    Min(SaturatingMul(base, JitterPercent(seed, attempt)) / 100, maximum)
  }

  /** Whatever the seed and the attempt, the delay is within a fifth of its base, up to saturation, and never above the cap. */
  lemma JitterWithinFifth(base: Duration, maximum: Duration, seed: nat, attempt: nat)
    ensures var d := JitteredDelay(base, maximum, seed, attempt);
            Min(SaturatingMul(base, 80) / 100, maximum) <= d <= Min(SaturatingMul(base, 120) / 100, maximum)
  {
    hide JitterPercent;
    var p := JitterPercent(seed, attempt);
    MulMonotone(base, 80, p);
    MulMonotone(base, p, 120);
  }

  lemma MulMonotone(x: nat, a: nat, b: nat)
    requires a <= b
    ensures x * a <= x * b
  {
  }

  /** The inverse of the jitter's multiplier modulo 2^64, and the quotient that witnesses it. */
  const INVERSE: nat := 0x96de1b173f119089
  const QUOTIENT: nat := 8125545580553827436

  lemma Congruent(y: int, r: nat, q: int)
    requires y == r + TWO_64 * q && r < TWO_64
    ensures y % TWO_64 == r
  {
  }

  /** The multiplier is invertible, so every residue is reached by some product. */
  lemma MultiplierReaches(r: nat) returns (x: nat)
    requires r < TWO_64
    ensures x < TWO_64 && x * 0xbf58476d1ce4e5b9 % TWO_64 == r
  {
    x := r * INVERSE % TWO_64;
    var q := r * INVERSE / TWO_64;
    assert r * INVERSE == q * TWO_64 + x;
    assert INVERSE * 0xbf58476d1ce4e5b9 == QUOTIENT * TWO_64 + 1;
    assert x * 0xbf58476d1ce4e5b9 == r + TWO_64 * (r * QUOTIENT - q * 0xbf58476d1ce4e5b9) by {
      assert r * INVERSE * 0xbf58476d1ce4e5b9 == r * (INVERSE * 0xbf58476d1ce4e5b9);
    }
    Congruent(x * 0xbf58476d1ce4e5b9, r, r * QUOTIENT - q * 0xbf58476d1ce4e5b9);
  }

  /** At every attempt each percentage from 80 to 120 is drawn for some 64-bit seed. */
  lemma JitterReachesAll(attempt: nat, percent: nat) returns (seed: nat)
    requires 80 <= percent <= 120
    ensures seed < TWO_64 && JitterPercent(seed, attempt) == percent
  {
    var x := MultiplierReaches(percent - 80);
    var shift := attempt * 0x9e3779b97f4a7c15 % TWO_64;
    seed := if x >= shift then x - shift else x + TWO_64 - shift;
    assert (seed + shift) % TWO_64 == x;
  }

  // ---------- Result redelivery ----------

  function Pow2(n: nat): nat {
    if n == 0 then 1 else 2 * Pow2(n - 1)
  }

  const MAX_DELAY_MS: nat := 60_000

  /** The delay before jitter, in milliseconds: 1 s doubling, capped at a minute from the seventh attempt on. */
  function RetryBaseMs(attempts: nat): (base: nat)
    ensures 1_000 <= base <= MAX_DELAY_MS
  {
    var shift := Min(attempts, 6);
    Pow2Positive(shift);
    Min(1_000 * Pow2(shift), MAX_DELAY_MS)
  }

  lemma {:induction false} Pow2Positive(n: nat)
    ensures Pow2(n) >= 1
  {
    if n > 0 { Pow2Positive(n - 1); }
  }

  function RetryDelayMs(deliveryId: seq<bv8>, attempts: nat): nat {
    JitteredDelay(RetryBaseMs(attempts) * NANOS_PER_MS, MAX_DELAY_MS * NANOS_PER_MS, StableJitterSeed(deliveryId) as nat, attempts)
    / NANOS_PER_MS
  }

  /** The shift that stops at six doublings is unbounded doubling under the cap. */
  lemma {:induction false} BaseIsCappedDoubling(attempts: nat)
    ensures RetryBaseMs(attempts) == Min(1_000 * Pow2(attempts), 60_000)
    ensures attempts >= 6 ==> 1_000 * Pow2(attempts) >= 60_000
  {
    if attempts == 6 {
      assert Pow2(6) == 64;
    } else if attempts > 6 {
      assert Pow2(6) == 64;
      BaseIsCappedDoubling(attempts - 1);
    }
  }

  /** Every redelivery delay is within a fifth of min(1 s * 2^attempts, 60 s), and never above a minute. */
  lemma RetryDelayNearDoubling(deliveryId: seq<bv8>, attempts: nat)
    ensures var base := Min(1_000 * Pow2(attempts), 60_000);
            Min(base * 80 / 100, 60_000) <= RetryDelayMs(deliveryId, attempts) <= Min(base * 120 / 100, 60_000)
  {
    hide RetryDelayMs, RetryBaseMs, Pow2;
    BaseIsCappedDoubling(attempts);
    RetryDelayNearBase(deliveryId, attempts);
  }

  lemma RetryDelayNearBase(deliveryId: seq<bv8>, attempts: nat)
    ensures var base := RetryBaseMs(attempts);
            Min(base * 80 / 100, MAX_DELAY_MS) <= RetryDelayMs(deliveryId, attempts) <= Min(base * 120 / 100, MAX_DELAY_MS)
  {
    hide StableJitterSeed, JitterPercent, JitteredDelay, RetryBaseMs;
    var base := RetryBaseMs(attempts);
    JitterWithinFifth(base * NANOS_PER_MS, MAX_DELAY_MS * NANOS_PER_MS, StableJitterSeed(deliveryId) as nat, attempts);
  }

  lemma RetryBases(attempts: nat)
    ensures attempts < 6 ==> RetryBaseMs(attempts + 1) == Min(2 * RetryBaseMs(attempts), MAX_DELAY_MS) && RetryBaseMs(attempts) <= 32_000
    ensures attempts >= 6 ==> RetryBaseMs(attempts) == MAX_DELAY_MS
  {
  }

  /** Every redelivery waits between 0.8 s and a minute, and at least 48 s from the seventh attempt on. */
  lemma RetryDelayBounds(deliveryId: seq<bv8>, attempts: nat)
    ensures 800 <= RetryDelayMs(deliveryId, attempts) <= MAX_DELAY_MS
    ensures attempts >= 6 ==> RetryDelayMs(deliveryId, attempts) >= 48_000
  {
    hide RetryDelayMs, RetryBaseMs;
    RetryDelayNearBase(deliveryId, attempts);
    RetryBases(attempts);
  }

  /** Across the first seven attempts the delays strictly increase, even between different deliveries. */
  lemma RetryDelayIncreases(first: seq<bv8>, second: seq<bv8>, attempts: nat)
    requires attempts < 6
    ensures RetryDelayMs(first, attempts) < RetryDelayMs(second, attempts + 1)
  {
    hide RetryDelayMs, RetryBaseMs;
    RetryDelayNearBase(first, attempts);
    RetryDelayNearBase(second, attempts + 1);
    RetryBases(attempts);
  }

  // ---------- Reconnecting ----------

  /** The delay before jitter after `k` failures. */
  function ReconnectBase(initial: Duration, maximum: Duration, k: nat): Duration {
    Min(initial * Pow2(k), maximum)
  }

  lemma DoublingIsCapped(initial: Duration, maximum: Duration, k: nat)
    ensures NextReconnectDelay(ReconnectBase(initial, maximum, k), maximum) == ReconnectBase(initial, maximum, k + 1)
  {
  }

  /** The supervisor's sleeps over a number of failed or closed streams. */
  method SuperviseRelayStream(initial: Duration, maximum: Duration, seed: nat, failures: nat) returns (sleeps: seq<Duration>)
    ensures |sleeps| == failures
    ensures forall k :: 0 <= k < failures ==>
              sleeps[k] == JitteredDelay(ReconnectBase(initial, maximum, k), maximum, seed, Min(k, TWO_32 - 1)) <= maximum
  {
    hide JitterPercent, ReconnectBase, NextReconnectDelay;
    sleeps := [];
    var delay: Duration := Min(initial, maximum);
    var retryAttempt := 0;
    FirstBase(initial, maximum);
    for k := 0 to failures
      invariant |sleeps| == k && delay == ReconnectBase(initial, maximum, k) && retryAttempt == Min(k, TWO_32 - 1)
      invariant forall j :: 0 <= j < k ==>
                  sleeps[j] == JitteredDelay(ReconnectBase(initial, maximum, j), maximum, seed, Min(j, TWO_32 - 1)) <= maximum
    {
      sleeps := sleeps + [JitteredDelay(delay, maximum, seed, retryAttempt)];
      retryAttempt := Min(retryAttempt + 1, TWO_32 - 1);
      DoublingIsCapped(initial, maximum, k);
      delay := NextReconnectDelay(delay, maximum);
    }
  }

  lemma FirstBase(initial: Duration, maximum: Duration)
    ensures ReconnectBase(initial, maximum, 0) == Min(initial, maximum)
  {
  }
}
