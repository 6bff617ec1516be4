/** The 128-bit hash of the empty input, and what it says about a reset with a secret and seed 0. */
module Xxh3Empty {
  import opened HashBytes
  import opened XxhLanes
  import opened Xxh3Scalar
  import opened Xxh3Script
  import Xxh3Spec
  import opened Xxh3Words

  function FlipLow(secret: seq<Byte>): bv64 {
    ReadLE64(secret, 64) ^ ReadLE64(secret, 72)
  }

  function FlipHigh(secret: seq<Byte>): bv64 {
    ReadLE64(secret, 80) ^ ReadLE64(secret, 88)
  }

  /** XXH3_len_0to16_128b for length 0. */
  function Empty128(secret: seq<Byte>, seed: bv64): Xxh3Spec.Hash128 {
    Xxh3Spec.Hash128(Avalanche64(seed ^ FlipLow(secret)), Avalanche64(seed ^ FlipHigh(secret)))
  }

  /** The scalar kernel of the library, over any hashes of 1 to 240 bytes. */
  function Library(short64: (seq<Byte>, seq<Byte>, bv64) -> bv64,
                   short128: (seq<Byte>, seq<Byte>, bv64) -> Xxh3Spec.Hash128): (k: Xxh3Spec.Kernel)
    ensures k.WellFormed() && k.defaultSecret == DEFAULT_SECRET
  {
    Scalar(short64, (data, secret, seed) => if data == [] then Empty128(secret, seed) else short128(data, secret, seed))
  }

  // ----- the avalanche loses nothing -----

  ghost predicate Injective<W(!new)>(f: W -> W) {
    forall x, y :: f(x) == f(y) ==> x == y
  }

  /** A shift that distributes over the exclusive or and leaves nothing after three times. */
  ghost predicate ShiftLaws<W(!new)>(xor: (W, W) -> W, shift: W -> W, zero: W) {
    && (forall a, b :: shift(xor(a, b)) == xor(shift(a), shift(b)))
    && (forall a :: shift(shift(shift(a))) == zero)
    && (forall a, b :: xor(xor(a, b), b) == a)
    && (forall a :: xor(a, zero) == a)
  }

  lemma XorShiftInjective<W(!new)>(xor: (W, W) -> W, shift: W -> W, zero: W, x: W, y: W)
    requires ShiftLaws(xor, shift, zero) && xor(x, shift(x)) == xor(y, shift(y))
    ensures x == y
  {
    var u := xor(x, shift(x));
    assert shift(shift(u)) == shift(shift(x)) == shift(shift(y));
    assert xor(shift(u), shift(shift(x))) == shift(x);
    assert xor(shift(u), shift(shift(y))) == shift(y);
    assert xor(u, shift(x)) == x && xor(u, shift(y)) == y;
  }

  ghost predicate StepLaws<W(!new)>(s: Steps<W>, zero: W) {
    && ShiftLaws(s.xor, s.shift1, zero) && ShiftLaws(s.xor, s.shift2, zero) && ShiftLaws(s.xor, s.shift3, zero)
    && Injective(s.times1) && Injective(s.times2)
  }

  lemma AvalanchedInjective<W(!new)>(s: Steps<W>, zero: W, x: W, y: W)
    requires StepLaws(s, zero) && Avalanched(s, x) == Avalanched(s, y)
    ensures x == y
  {
    var a, a' := s.times1(s.xor(x, s.shift1(x))), s.times1(s.xor(y, s.shift1(y)));
    var b, b' := s.times2(s.xor(a, s.shift2(a))), s.times2(s.xor(a', s.shift2(a')));
    XorShiftInjective(s.xor, s.shift3, zero, b, b');
    XorShiftInjective(s.xor, s.shift2, zero, a, a');
    XorShiftInjective(s.xor, s.shift1, zero, x, y);
  }

  lemma XorLaws()
    ensures forall a, b :: Xor64(Xor64(a, b), b) == a
    ensures forall a :: Xor64(a, 0) == a
  {
  }

  lemma Shift33Laws()
    ensures ShiftLaws(Xor64, Shift33, 0)
  {
    XorLaws();
  }

  lemma Shift29Laws()
    ensures ShiftLaws(Xor64, Shift29, 0)
  {
    XorLaws();
  }

  lemma Shift32Laws()
    ensures ShiftLaws(Xor64, Shift32, 0)
  {
    XorLaws();
  }

  // The inverses of the two primes modulo 2^64.

  function TimesInverse2(x: bv64): bv64 { x * 0x0BA79078168D4BAF }

  function TimesInverse3(x: bv64): bv64 { x * 0xE9E9F4C41D6DF849 }

  lemma Prime2Undone(x: bv64, t: bv64)
    requires t == x * 0xC2B2AE3D27D4EB4F
    ensures TimesInverse2(t) == x
  {
    assert TimesInverse2(x * 0xC2B2AE3D27D4EB4F) == x;
  }

  lemma Prime3Undone(x: bv64, t: bv64)
    requires t == x * 0x165667B19E3779F9
    ensures TimesInverse3(t) == x
  {
    assert TimesInverse3(x * 0x165667B19E3779F9) == x;
  }

  lemma InverseInjective<W(!new)>(f: W -> W, g: W -> W)
    requires forall x :: g(f(x)) == x
    ensures Injective(f)
  {
    forall x, y | f(x) == f(y) ensures x == y {
      assert g(f(x)) == g(f(y));
    }
  }

  lemma TimesPrime2Injective()
    ensures Injective(TimesPrime2)
  {
    forall x ensures TimesInverse2(TimesPrime2(x)) == x {
      Prime2Undone(x, TimesPrime2(x));
    }
    InverseInjective(TimesPrime2, TimesInverse2);
  }

  lemma TimesPrime3Injective()
    ensures Injective(TimesPrime3)
  {
    forall x ensures TimesInverse3(TimesPrime3(x)) == x {
      Prime3Undone(x, TimesPrime3(x));
    }
    InverseInjective(TimesPrime3, TimesInverse3);
  }

  lemma AvalancheInjective(x: bv64, y: bv64)
    requires Avalanche64(x) == Avalanche64(y)
    ensures x == y
  {
    Shift33Laws();
    Shift29Laws();
    Shift32Laws();
    TimesPrime2Injective();
    TimesPrime3Injective();
    AvalanchedInjective(Steps64(), 0, x, y);
  }

  lemma EmptyInjective(s: seq<Byte>, t: seq<Byte>)
    ensures Empty128(s, 0) == Empty128(t, 0) <==> FlipLow(s) == FlipLow(t) && FlipHigh(s) == FlipHigh(t)
  {
    if Empty128(s, 0) == Empty128(t, 0) {
      AvalancheInjective(0 ^ FlipLow(s), 0 ^ FlipLow(t));
      AvalancheInjective(0 ^ FlipHigh(s), 0 ^ FlipHigh(t));
      XorZero(FlipLow(s), FlipLow(t));
      XorZero(FlipHigh(s), FlipHigh(t));
    }
  }

  lemma XorZero(x: bv64, y: bv64)
    requires 0 ^ x == 0 ^ y
    ensures x == y
  {
  }

  // ----- the digest after a reset with a secret and seed 0 -----

  lemma EmptyDigest(k: Xxh3Spec.Kernel, secret: seq<Byte>)
    requires k.WellFormed() && |secret| >= Xxh3Spec.SECRET_SIZE_MIN
    requires k.short128([], secret, 0) == Empty128(secret, 0)
    requires k.short128([], k.defaultSecret, 0) == Empty128(k.defaultSecret, 0)
    ensures
      var mode := Xxh3Spec.WithSecretAndSeed(secret, 0);
      Digest128Of(k, mode, []) == Xxh3Spec.OneShot128(k, mode, []) <==>
      FlipLow(secret) == FlipLow(k.defaultSecret) && FlipHigh(secret) == FlipHigh(k.defaultSecret)
  {
    Digest128Exactly(k, Xxh3Spec.WithSecretAndSeed(secret, 0), []);
    EmptyInjective(secret, k.defaultSecret);
  }

  /** With the library's hash of the empty input, the digest agrees with the one-shot hash if and only if the two
      differences of secret words that the hash reads are those of the default secret. */
  lemma EmptyDigestExactly(short64: (seq<Byte>, seq<Byte>, bv64) -> bv64,
                           short128: (seq<Byte>, seq<Byte>, bv64) -> Xxh3Spec.Hash128, secret: seq<Byte>)
    requires |secret| >= Xxh3Spec.SECRET_SIZE_MIN
    ensures
      var k, mode := Library(short64, short128), Xxh3Spec.WithSecretAndSeed(secret, 0);
      Digest128Of(k, mode, []) == Xxh3Spec.OneShot128(k, mode, []) <==>
      FlipLow(secret) == FlipLow(DEFAULT_SECRET) && FlipHigh(secret) == FlipHigh(DEFAULT_SECRET)
  {
    EmptyDigest(Library(short64, short128), secret);
  }

  lemma DefaultFlip()
    ensures FlipLow(DEFAULT_SECRET) != 0
  {
    SecretWritten();
    WrittenWord(SECRET_WORDS, 8);
    WrittenWord(SECRET_WORDS, 9);
  }

  lemma ZeroFlip(secret: seq<Byte>)
    requires forall i :: 0 <= i < |secret| ==> secret[i] == 0
    ensures FlipLow(secret) == 0
  {
  }

  /** A secret of zero bytes: the streaming digest of the empty input is not the one-shot hash. */
  lemma ZeroSecretDiffers(short64: (seq<Byte>, seq<Byte>, bv64) -> bv64,
                          short128: (seq<Byte>, seq<Byte>, bv64) -> Xxh3Spec.Hash128, secret: seq<Byte>)
    requires |secret| >= Xxh3Spec.SECRET_SIZE_MIN && forall i :: 0 <= i < |secret| ==> secret[i] == 0
    ensures
      var k, mode := Library(short64, short128), Xxh3Spec.WithSecretAndSeed(secret, 0);
      Digest128Of(k, mode, []) != Xxh3Spec.OneShot128(k, mode, [])
  {
    ZeroFlip(secret);
    DefaultFlip();
    EmptyDigestExactly(short64, short128, secret);
  }
}
