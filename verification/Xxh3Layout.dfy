/** How XXH3 lays a long input out over its secret: which 64 bytes of the secret each stripe, each scramble, the last
stripe and the two merges read. */
module Xxh3Layout {
  import opened HashBytes
  import opened Sizes
  import opened Xxh3Spec

  /** How many stripes pass between two scrambles. */
  function PerBlock(secret: seq<Byte>): (b: nat)
    requires |secret| >= 136
    ensures b >= 9
  {
    (|secret| - 64) / 8
  }

  /** One stripe against the secret's bytes at `at`, then perhaps the scramble against its last 64. */
  function Mixed(k: Kernel, secret: seq<Byte>, stripe: seq<Byte>, at: nat, scrambles: bool, acc: Acc): Acc
    requires |secret| >= 136 && at + 64 <= |secret|
  {
    var next := k.accumulate512(acc, stripe, secret[at..at + 64]);
    if scrambles then k.scramble(next, secret[|secret| - 64..]) else next
  }

  /** The accumulators after stripe `i`: it moves 8 bytes further over the secret with every stripe of a block. */
  function Turn(k: Kernel, secret: seq<Byte>, data: seq<Byte>, i: nat, acc: Acc): Acc
    requires |secret| >= 136 && 64 * i + 64 <= |data|
  {
    Mixed(k, secret, data[64 * i..64 * i + 64], 8 * (i % PerBlock(secret)), (i + 1) % PerBlock(secret) == 0, acc)
  }

  /** The accumulators before the first stripe and after each one. */
  ghost predicate Turns(k: Kernel, secret: seq<Byte>, data: seq<Byte>, accs: seq<Acc>) {
    && |secret| >= 136 && accs != [] && 64 * (|accs| - 1) <= |data|
    && accs[0] == k.initAcc
    && forall i: nat {:trigger Turn(k, secret, data, i, accs[i])} ::
         i + 1 < |accs| ==> accs[i + 1] == Turn(k, secret, data, i, accs[i])
  }

  lemma ModStep(n: nat, b: nat)
    requires b > 0
    ensures (n + 1) % b == if n % b + 1 == b then 0 else n % b + 1
  {
    var q, r := n / b, n % b;
    assert n + 1 == b * q + (r + 1);
    if r + 1 == b {
      ModIs(n + 1, b, q + 1, 0);
    } else {
      ModIs(n + 1, b, q, r + 1);
    }
  }

  lemma ModIs(n: nat, b: nat, q: nat, r: nat)
    requires 0 <= r < b && n == b * q + r
    ensures n % b == r
  {
    if n / b < q {
      MulMonotone(n / b + 1, q, b);
    } else if n / b > q {
      MulMonotone(q + 1, n / b, b);
    }
  }

  lemma OneStripe(k: Kernel, secret: seq<Byte>, acc: Acc, r: nat, stripe: seq<Byte>, next: nat)
    requires |secret| >= 136 && r < PerBlock(secret) && next == if r + 1 == PerBlock(secret) then 0 else r + 1
    ensures AbsorbStripe(k, secret, Progress(acc, r), stripe) ==
      Progress(Mixed(k, secret, stripe, 8 * r, next == 0, acc), next)
  {
    assert secret[|secret| - 64..] == Stripe(secret, |secret| - 64);
  }

  lemma OneTurn(k: Kernel, secret: seq<Byte>, data: seq<Byte>, i: nat, acc: Acc)
    requires |secret| >= 136 && 64 * i + 64 <= |data|
    ensures AbsorbStripe(k, secret, Progress(acc, i % PerBlock(secret)), data[64 * i..64 * i + 64]) ==
      Progress(Turn(k, secret, data, i, acc), (i + 1) % PerBlock(secret))
  {
    ModStep(i, PerBlock(secret));
    OneStripe(k, secret, acc, i % PerBlock(secret), data[64 * i..64 * i + 64], (i + 1) % PerBlock(secret));
  }

  lemma FirstPhase(b: nat)
    requires b > 0
    ensures 0 % b == 0
  {
  }

  lemma AbsorbOne(k: Kernel, secret: seq<Byte>, data: seq<Byte>, i: nat, p: Progress, q: Progress)
    requires |secret| >= 136 && 64 * i + 64 <= |data| && Absorb(k, secret, data, i) == p
    requires p.inBlock < PerBlock(secret) && AbsorbStripe(k, secret, p, data[64 * i..64 * i + 64]) == q
    ensures Absorb(k, secret, data, i + 1) == q
  {
  }

  lemma AbsorbNext(k: Kernel, secret: seq<Byte>, data: seq<Byte>, i: nat, acc: Acc)
    requires |secret| >= 136 && 64 * i + 64 <= |data|
    requires Absorb(k, secret, data, i) == Progress(acc, i % PerBlock(secret))
    ensures Absorb(k, secret, data, i + 1) == Progress(Turn(k, secret, data, i, acc), (i + 1) % PerBlock(secret))
  {
    OneTurn(k, secret, data, i, acc);
    AbsorbOne(k, secret, data, i, Progress(acc, i % PerBlock(secret)),
              Progress(Turn(k, secret, data, i, acc), (i + 1) % PerBlock(secret)));
  }

  /** Absorbing takes the turns in order. */
  lemma {:induction false} AbsorbTurns(k: Kernel, secret: seq<Byte>, data: seq<Byte>, accs: seq<Acc>, n: nat)
    requires Turns(k, secret, data, accs) && n < |accs|
    ensures Absorb(k, secret, data, n) == Progress(accs[n], n % PerBlock(secret))
  {
    if n == 0 {
      FirstPhase(PerBlock(secret));
    } else {
      AbsorbTurns(k, secret, data, accs, n - 1);
      AbsorbNext(k, secret, data, n - 1, accs[n - 1]);
    }
  }

  /** Every input has its turns. */
  lemma {:induction false} TurnsOf(k: Kernel, secret: seq<Byte>, data: seq<Byte>, n: nat) returns (accs: seq<Acc>)
    requires |secret| >= 136 && 64 * n <= |data|
    ensures |accs| == n + 1 && Turns(k, secret, data, accs)
  {
    if n == 0 {
      accs := [k.initAcc];
    } else {
      var before := TurnsOf(k, secret, data, n - 1);
      accs := before + [Turn(k, secret, data, n - 1, before[n - 1])];
      TurnsMore(k, secret, data, before, accs);
    }
  }

  lemma TurnsMore(k: Kernel, secret: seq<Byte>, data: seq<Byte>, before: seq<Acc>, accs: seq<Acc>)
    requires Turns(k, secret, data, before) && 64 * |before| <= |data|
    requires accs == before + [Turn(k, secret, data, |before| - 1, before[|before| - 1])]
    ensures Turns(k, secret, data, accs)
  {
    forall i: nat | i + 1 < |accs| ensures accs[i + 1] == Turn(k, secret, data, i, accs[i]) {
      assert accs[i] == before[i];
      assert i + 1 < |before| ==> before[i + 1] == Turn(k, secret, data, i, before[i]);
    }
  }

  /** The input's last 64 bytes, against the 64 bytes that end 7 before the end of the secret. */
  function LastTurn(k: Kernel, secret: seq<Byte>, data: seq<Byte>, acc: Acc): Acc
    requires |secret| >= 136 && |data| >= 64
  {
    k.accumulate512(acc, data[|data| - 64..], secret[|secret| - 71..|secret| - 7])
  }

  function LowHalf(k: Kernel, secret: seq<Byte>, acc: Acc, len: nat): bv64
    requires |secret| >= 136
  {
    k.merge(acc, secret[11..75], len * 0x9E3779B185EBCA87 % 0x1_0000_0000_0000_0000)
  }

  function HighHalf(k: Kernel, secret: seq<Byte>, acc: Acc, len: nat): bv64
    requires |secret| >= 136
  {
    k.merge(acc, secret[|secret| - 75..|secret| - 11],
            0xFFFF_FFFF_FFFF_FFFF - len * 0xC2B2AE3D27D4EB4F % 0x1_0000_0000_0000_0000)
  }

  lemma LongAccExactly(k: Kernel, secret: seq<Byte>, data: seq<Byte>, accs: seq<Acc>)
    requires Turns(k, secret, data, accs) && 64 <= |data| && 64 * (|accs| - 1) < |data| <= 64 * |accs|
    ensures LongAcc(k, secret, data) == LastTurn(k, secret, data, accs[|accs| - 1])
  {
    assert (|data| - 1) / 64 == |accs| - 1;
    AbsorbTurns(k, secret, data, accs, |accs| - 1);
    assert data[|data| - 64..] == Stripe(data, |data| - 64);
  }

  /** Both hashes of more than 240 bytes, from the turns of the stripes that leave at least a byte over. */
  lemma LongExactly(k: Kernel, mode: Mode, data: seq<Byte>, accs: seq<Acc>)
    requires mode.Usable() && k.WellFormed() && |data| > 240
    requires Turns(k, LongSecret(k, mode), data, accs) && 64 * (|accs| - 1) < |data| <= 64 * |accs|
    ensures var secret := LongSecret(k, mode);
            var acc := LastTurn(k, secret, data, accs[|accs| - 1]);
            && OneShot64(k, mode, data) == LowHalf(k, secret, acc, |data|)
            && OneShot128(k, mode, data) == Hash128(LowHalf(k, secret, acc, |data|), HighHalf(k, secret, acc, |data|))
  {
    var secret := LongSecret(k, mode);
    LongAccExactly(k, secret, data, accs);
    assert secret[11..75] == Stripe(secret, 11);
    assert secret[|secret| - 75..|secret| - 11] == Stripe(secret, |secret| - 75);
  }

  /** The low half of a long 128-bit hash is the 64-bit hash. */
  lemma LowHalfIsHash64(k: Kernel, mode: Mode, data: seq<Byte>)
    requires mode.Usable() && k.WellFormed() && |data| > 240
    ensures OneShot128(k, mode, data).low64 == OneShot64(k, mode, data)
  {
  }

  /** For every usable secret, the windows of the stripes, of the last stripe and of the scramble start in this order,
      so that the last stripe shares its window with nothing; the merges read two different windows. */
  lemma WindowsApart(secret: seq<Byte>, i: nat)
    requires |secret| >= 136
    ensures 8 * (i % PerBlock(secret)) < |secret| - 71 < |secret| - 64
    ensures 11 < |secret| - 75
  {
    var b := PerBlock(secret);
    assert i % b <= b - 1;
  }

  // ----- the entry points -----

  /** What each entry point is, in terms of two of them. */
  lemma EntryPoints(k: Kernel, data: seq<Byte>, secret: seq<Byte>, seed: bv64)
    requires k.WellFormed() && |secret| >= 136
    ensures OneShot64(k, Default, data) == OneShot64(k, WithSeed(0), data) ==
      OneShot64(k, WithSecret(k.defaultSecret), data)
    ensures OneShot128(k, Default, data) == OneShot128(k, WithSeed(0), data) ==
      OneShot128(k, WithSecret(k.defaultSecret), data)
    ensures |data| > 240 ==>
      && OneShot64(k, WithSecretAndSeed(secret, seed), data) == OneShot64(k, WithSecret(secret), data)
      && OneShot128(k, WithSecretAndSeed(secret, seed), data) == OneShot128(k, WithSecret(secret), data)
      && (seed != 0 ==> OneShot64(k, WithSeed(seed), data) == OneShot64(k, WithSecret(k.deriveSecret(seed)), data))
      && (seed != 0 ==> OneShot128(k, WithSeed(seed), data) == OneShot128(k, WithSecret(k.deriveSecret(seed)), data))
    ensures |data| <= 240 ==>
      && OneShot64(k, WithSecretAndSeed(secret, seed), data) == OneShot64(k, WithSeed(seed), data)
      && OneShot128(k, WithSecretAndSeed(secret, seed), data) == OneShot128(k, WithSeed(seed), data)
      && OneShot64(k, WithSeed(seed), data) == k.short64(data, k.defaultSecret, seed)
      && OneShot128(k, WithSeed(seed), data) == k.short128(data, k.defaultSecret, seed)
      && OneShot64(k, WithSecret(secret), data) == k.short64(data, secret, 0)
      && OneShot128(k, WithSecret(secret), data) == k.short128(data, secret, 0)
  {
  }
}
