/** What the scalar primitives of XXH3 lose and keep: scrambling can be undone, and a derived secret is the default
one with the seed added to its even words and subtracted from its odd ones. */
module Xxh3Laws {
  import opened HashBytes
  import opened Xxh3Scalar
  import opened Xxh3Spec

  // ----- scrambling -----

  /** The inverse of 2654435761 modulo 2^64. */
  function TimesInverse(x: bv64): bv64 { x * 0xCFA4A56B0E8B2F51 }

  function UnscrambledLane(lane: bv64, key: bv64): bv64 {
    var x := Xor(TimesInverse(lane), key);
    Xor(x, Shift47(x))
  }

  lemma XorUndone(a: bv64, b: bv64)
    ensures Xor(Xor(a, b), b) == a
  {
  }

  lemma XorZero(a: bv64)
    ensures Xor(a, 0) == a
  {
  }

  lemma ShiftedXor(a: bv64, b: bv64)
    ensures Shift47(Xor(a, b)) == Xor(Shift47(a), Shift47(b))
  {
  }

  lemma ShiftedTwice(a: bv64)
    ensures Shift47(Shift47(a)) == 0
  {
  }

  lemma ProductUndone(x: bv64, t: bv64)
    requires t == x * 2654435761
    ensures TimesInverse(t) == x
  {
    assert TimesInverse(x * 2654435761) == x;
  }

  lemma TimesUndone(x: bv64)
    ensures TimesInverse(TimesPrime1(x)) == x
  {
    ProductUndone(x, x * 2654435761);
  }

  /** A word mixed with its shift by 47 gives the word back when it is mixed so again. */
  lemma LaneUndone(acc: bv64, key: bv64)
    ensures UnscrambledLane(ScrambledLane(acc, key), key) == acc
  {
    var y := Xor(acc, Shift47(acc));
    TimesUndone(Xor(y, key));
    XorUndone(y, key);
    ShiftedXor(acc, Shift47(acc));
    ShiftedTwice(acc);
    XorZero(Shift47(acc));
    XorUndone(acc, Shift47(acc));
  }

  /** Scrambling loses nothing, whatever the secret. */
  lemma ScrambleInjective(a: Acc, b: Acc, secret: seq<Byte>)
    requires Scramble(a, secret) == Scramble(b, secret)
    ensures a == b
  {
    var s, t := Scramble(a, secret), Scramble(b, secret);
    assert |s| == |a| && |t| == |b|;
    forall i | 0 <= i < |a| ensures a[i] == b[i] {
      assert s[i] == t[i];
      LaneUndone(a[i], ReadLE64(secret, 8 * i));
      LaneUndone(b[i], ReadLE64(secret, 8 * i));
    }
  }

  // ----- derived secrets -----

  lemma ReadWritten(x: bv64)
    ensures ReadLE64(WriteLE64(x), 0) == x
  {
  }

  lemma ReadInside(a: seq<Byte>, x: seq<Byte>, b: seq<Byte>)
    requires |x| == 8
    ensures ReadLE64(a + x + b, |a|) == ReadLE64(x, 0)
  {
    var s := a + x + b;
    assert s[|a|] == x[0] && s[|a| + 1] == x[1] && s[|a| + 2] == x[2] && s[|a| + 3] == x[3];
    assert s[|a| + 4] == x[4] && s[|a| + 5] == x[5] && s[|a| + 6] == x[6] && s[|a| + 7] == x[7];
  }

  lemma ReadPrefix(a: seq<Byte>, b: seq<Byte>, at: nat)
    requires at + 8 <= |a|
    ensures ReadLE64(a + b, at) == ReadLE64(a, at)
  {
  }

  lemma PairWords(secret: seq<Byte>, seed: bv64, i: nat, pair: seq<Byte>)
    requires pair == DerivedPair(secret, seed, i)
    ensures ReadLE64(pair, 0) == Plus(ReadLE64(secret, 16 * i), seed)
    ensures ReadLE64(pair, 8) == Minus(ReadLE64(secret, 16 * i + 8), seed)
  {
    var x, y := Plus(ReadLE64(secret, 16 * i), seed), Minus(ReadLE64(secret, 16 * i + 8), seed);
    ReadPair(WriteLE64(x), WriteLE64(y));
    ReadWritten(x);
    ReadWritten(y);
  }

  lemma ReadPair(x: seq<Byte>, y: seq<Byte>)
    requires |x| == |y| == 8
    ensures ReadLE64(x + y, 0) == ReadLE64(x, 0) && ReadLE64(x + y, 8) == ReadLE64(y, 0)
  {
    assert [] + x + y == x + y && x + y + [] == x + y;
    ReadInside([], x, y);
    ReadInside(x, y, []);
  }

  lemma ReadBehind(front: seq<Byte>, s: seq<Byte>, at: nat, n: nat)
    requires at + 8 <= |s| && n == |front| + at
    ensures ReadLE64(front + s, n) == ReadLE64(s, at)
  {
  }

  lemma DerivedHere(secret: seq<Byte>, seed: bv64, i: nat)
    ensures ReadLE64(Derived(secret, seed, i + 1), 16 * i) == Plus(ReadLE64(secret, 16 * i), seed)
    ensures ReadLE64(Derived(secret, seed, i + 1), 16 * i + 8) == Minus(ReadLE64(secret, 16 * i + 8), seed)
  {
    var pair := DerivedPair(secret, seed, i);
    PairWords(secret, seed, i, pair);
    ReadBehind(Derived(secret, seed, i), pair, 0, 16 * i);
    ReadBehind(Derived(secret, seed, i), pair, 8, 16 * i + 8);
  }

  lemma DerivedBefore(secret: seq<Byte>, seed: bv64, n: nat, at: nat)
    requires n > 0 && at + 8 <= 16 * (n - 1)
    ensures ReadLE64(Derived(secret, seed, n), at) == ReadLE64(Derived(secret, seed, n - 1), at)
  {
    ReadPrefix(Derived(secret, seed, n - 1), DerivedPair(secret, seed, n - 1), at);
  }

  /** Each pair of words: the seed is added to the first and subtracted from the second. */
  lemma {:induction false} DerivedWords(secret: seq<Byte>, seed: bv64, n: nat, i: nat)
    requires i < n
    ensures ReadLE64(Derived(secret, seed, n), 16 * i) == Plus(ReadLE64(secret, 16 * i), seed)
    ensures ReadLE64(Derived(secret, seed, n), 16 * i + 8) == Minus(ReadLE64(secret, 16 * i + 8), seed)
  {
    if i < n - 1 {
      DerivedWords(secret, seed, n - 1, i);
      DerivedBefore(secret, seed, n, 16 * i);
      DerivedBefore(secret, seed, n, 16 * i + 8);
    } else {
      DerivedHere(secret, seed, i);
    }
  }
}
