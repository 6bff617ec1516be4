/** The XXH3 long-input hash as a fold over stripes, and the one-shot entry points.

The arithmetic primitives (lane accumulation, scrambling, lane merging, the hashes for
inputs of at most 240 bytes, the secret derivation) are collected in a `Kernel` value, so
every result about streaming holds for every choice of primitives: the scalar ones, the
vectorised ones, or any other. Module `Xxh3Scalar` supplies the scalar lane primitives.
 */
module Xxh3Spec {
  import opened HashBytes
  import opened Sizes

  type Acc = seq<bv64>

  const STRIPE_LEN: nat := 64
  const CONSUME_RATE: nat := 8
  const SECRET_SIZE_MIN: nat := 136
  const SECRET_DEFAULT_SIZE: nat := 192
  const MIDSIZE_MAX: nat := 240
  const LASTACC_START: nat := 7
  const MERGEACCS_START: nat := 11
  const PRIME64_1: nat := 0x9E3779B185EBCA87
  const PRIME64_2: nat := 0xC2B2AE3D27D4EB4F


  datatype Hash128 = Hash128(low64: bv64, high64: bv64)

  /** The primitives. Lane operations see a 64-byte stripe and 64 bytes of secret. */
  datatype Kernel = Kernel(
    initAcc: Acc,
    accumulate512: (Acc, seq<Byte>, seq<Byte>) -> Acc,
    scramble: (Acc, seq<Byte>) -> Acc,
    merge: (Acc, seq<Byte>, nat) -> bv64,
    short64: (seq<Byte>, seq<Byte>, bv64) -> bv64,
    short128: (seq<Byte>, seq<Byte>, bv64) -> Hash128,
    defaultSecret: seq<Byte>,
    deriveSecret: bv64 -> seq<Byte>)
  {
    ghost predicate WellFormed() {
      && |defaultSecret| == SECRET_DEFAULT_SIZE
      && forall seed :: |deriveSecret(seed)| == SECRET_DEFAULT_SIZE
    }
  }

  function StripesPerBlock(secret: seq<Byte>): nat
    requires |secret| >= SECRET_SIZE_MIN
  {
    (|secret| - STRIPE_LEN) / CONSUME_RATE
  }

  /** The 64 bytes at offset `at`. */
  function Stripe(bytes: seq<Byte>, at: nat): seq<Byte>
    requires at + STRIPE_LEN <= |bytes|
  {
    bytes[at..at + STRIPE_LEN]
  }

  /** The accumulators, and how many stripes of the current block they hold. */
  datatype Progress = Progress(acc: Acc, inBlock: nat)

  /** One stripe, scrambling when it completes a block. */
  function AbsorbStripe(k: Kernel, secret: seq<Byte>, p: Progress, stripe: seq<Byte>): Progress
    requires |secret| >= SECRET_SIZE_MIN
    requires p.inBlock < StripesPerBlock(secret)
  {
    var acc := k.accumulate512(p.acc, stripe, Stripe(secret, CONSUME_RATE * p.inBlock));
    if p.inBlock + 1 == StripesPerBlock(secret) then
      Progress(k.scramble(acc, Stripe(secret, |secret| - STRIPE_LEN)), 0)
    else
      Progress(acc, p.inBlock + 1)
  }

  /** The first `n` stripes of `data`. */
  function Absorb(k: Kernel, secret: seq<Byte>, data: seq<Byte>, n: nat): (p: Progress)
    requires |secret| >= SECRET_SIZE_MIN
    requires STRIPE_LEN * n <= |data|
    ensures p.inBlock < StripesPerBlock(secret)
  {
    if n == 0 then
      Progress(k.initAcc, 0)
    else
      AbsorbStripe(k, secret, Absorb(k, secret, data, n - 1), Stripe(data, STRIPE_LEN * (n - 1)))
  }

  /** All whole stripes that leave at least one byte over, then the last 64 bytes, which may
      overlap stripes already absorbed, against their own segment of the secret. */
  function LongAcc(k: Kernel, secret: seq<Byte>, data: seq<Byte>): Acc
    requires |secret| >= SECRET_SIZE_MIN
    requires |data| >= STRIPE_LEN
  {
    k.accumulate512(Absorb(k, secret, data, (|data| - 1) / STRIPE_LEN).acc,
                    Stripe(data, |data| - STRIPE_LEN),
                    Stripe(secret, |secret| - STRIPE_LEN - LASTACC_START))
  }

  /** `(xxh_u64)len * XXH_PRIME64_1`, with its wrap-around. */
  function StartLow(len: nat): nat {
    len * PRIME64_1 % TWO64
  }

  /** `~((xxh_u64)len * XXH_PRIME64_2)`. */
  function StartHigh(len: nat): nat {
    TWO64 - 1 - len * PRIME64_2 % TWO64
  }

  function Merge64(k: Kernel, secret: seq<Byte>, acc: Acc, len: nat): bv64
    requires |secret| >= SECRET_SIZE_MIN
  {
    k.merge(acc, Stripe(secret, MERGEACCS_START), StartLow(len))
  }

  function Merge128(k: Kernel, secret: seq<Byte>, acc: Acc, len: nat): Hash128
    requires |secret| >= SECRET_SIZE_MIN
  {
    Hash128(k.merge(acc, Stripe(secret, MERGEACCS_START), StartLow(len)),
            k.merge(acc, Stripe(secret, |secret| - STRIPE_LEN - MERGEACCS_START), StartHigh(len)))
  }

  /** How a hash was configured: one constructor per public entry point. */
  datatype Mode =
    | Default
    | WithSeed(seed: bv64)
    | WithSecret(secret: seq<Byte>)
    | WithSecretAndSeed(secret: seq<Byte>, seed: bv64)
  {
    predicate Usable() {
      (WithSecret? || WithSecretAndSeed?) ==> |secret| >= SECRET_SIZE_MIN
    }
  }

  /** The secret that long inputs are hashed with. */
  function LongSecret(k: Kernel, mode: Mode): (s: seq<Byte>)
    requires mode.Usable() && k.WellFormed()
    ensures |s| >= SECRET_SIZE_MIN
  {
    match mode
    case Default => k.defaultSecret
    case WithSeed(seed) => if seed == 0 then k.defaultSecret else k.deriveSecret(seed)
    case WithSecret(secret) => secret
    case WithSecretAndSeed(secret, _) => secret
  }

  /** The secret and seed that inputs of at most 240 bytes are hashed with. */
  function ShortKey(k: Kernel, mode: Mode): (seq<Byte>, bv64) {
    match mode
    case Default => (k.defaultSecret, 0)
    case WithSeed(seed) => (k.defaultSecret, seed)
    case WithSecret(secret) => (secret, 0)
    case WithSecretAndSeed(_, seed) => (k.defaultSecret, seed)
  }

  /** XXH3_64bits, _withSeed, _withSecret and _withSecretandSeed. */
  function OneShot64(k: Kernel, mode: Mode, data: seq<Byte>): bv64
    requires mode.Usable() && k.WellFormed()
  {
    if |data| <= MIDSIZE_MAX then
      var (secret, seed) := ShortKey(k, mode);
      k.short64(data, secret, seed)
    else
      var secret := LongSecret(k, mode);
      Merge64(k, secret, LongAcc(k, secret, data), |data|)
  }

  /** XXH3_128bits and its three variants. */
  function OneShot128(k: Kernel, mode: Mode, data: seq<Byte>): Hash128
    requires mode.Usable() && k.WellFormed()
  {
    if |data| <= MIDSIZE_MAX then
      var (secret, seed) := ShortKey(k, mode);
      k.short128(data, secret, seed)
    else
      var secret := LongSecret(k, mode);
      Merge128(k, secret, LongAcc(k, secret, data), |data|)
  }

  /** The accumulators hold `n` stripes of `data`, `inBlock` of them in the current block; a block that
      has just been filled still waits for its scramble. */
  ghost predicate Holds(k: Kernel, secret: seq<Byte>, data: seq<Byte>, n: nat, acc: Acc, inBlock: nat) {
    && |secret| >= SECRET_SIZE_MIN
    && STRIPE_LEN * n <= |data|
    && inBlock <= StripesPerBlock(secret)
    && Absorb(k, secret, data, n) ==
       if inBlock == StripesPerBlock(secret) then Progress(k.scramble(acc, Stripe(secret, |secret| - STRIPE_LEN)), 0)
       else Progress(acc, inBlock)
  }

  /** Equal windows have equal parts on both sides of a cut. */
  lemma CutWindow(a: seq<Byte>, i: nat, b: seq<Byte>, j: nat, len: nat, cut: nat)
    requires cut <= len && i + len <= |a| && j + len <= |b|
    requires a[i..i + len] == b[j..j + len]
    ensures a[i..i + cut] == b[j..j + cut]
    ensures a[i + cut..i + len] == b[j + cut..j + len]
  {
    assert a[i..i + cut] == a[i..i + len][..cut];
    assert b[j..j + cut] == b[j..j + len][..cut];
    assert a[i + cut..i + len] == a[i..i + len][cut..];
    assert b[j + cut..j + len] == b[j..j + len][cut..];
  }

  /** Absorbing only looks at the stripes it is asked for. */
  lemma {:induction false} AbsorbPrefix(k: Kernel, secret: seq<Byte>, data: seq<Byte>, more: seq<Byte>, n: nat)
    requires |secret| >= SECRET_SIZE_MIN
    requires STRIPE_LEN * n <= |data|
    ensures Absorb(k, secret, data + more, n) == Absorb(k, secret, data, n)
  {
    if n > 0 {
      AbsorbPrefix(k, secret, data, more, n - 1);
      assert Stripe(data + more, STRIPE_LEN * (n - 1)) == Stripe(data, STRIPE_LEN * (n - 1));
    }
  }
}
