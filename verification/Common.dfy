/** What the modules share: optional values, machine sizes and bytes. */
module Options {
  datatype Option<+T> = None | Some(value: T)
}

module Sizes {
  const INT_MAX: nat := 0x7FFF_FFFF
  const TWO32: nat := 0x1_0000_0000
  const TWO64: nat := 0x1_0000_0000_0000_0000

  lemma MulMonotone(a: nat, b: nat, c: nat)
    requires a <= b
    ensures a * c <= b * c
  {
  }

  /** A subset has no more elements. */
  lemma {:induction false} Fewer<T>(a: set<T>, b: set<T>)
    requires a <= b
    ensures |a| <= |b|
  {
    if a != {} {
      var x :| x in a;
      Fewer(a - {x}, b - {x});
    }
  }
}

module Counting {
  import opened Sizes

  /** The numbers from m to n - 1. */
  lemma Between(m: nat, n: nat) returns (all: set<nat>)
    requires m <= n
    ensures |all| == n - m && forall k: nat :: k in all <==> m <= k < n
  {
    all := {};
    for i := m to n
      invariant |all| == i - m && forall k: nat :: k in all <==> m <= k < i
    {
      all := all + {i};
    }
  }

  lemma ProperlyFewer<T>(a: set<T>, b: set<T>)
    requires a < b
    ensures |a| < |b|
  {
    var x :| x in b && x !in a;
    Fewer(a, b - {x});
  }
}

module Powers {
  import opened Sizes

  function Pow2(n: nat): (p: nat)
    ensures p >= 1
  {
    if n == 0 then 1 else 2 * Pow2(n - 1)
  }

  lemma Pow2Byte(n: nat)
    ensures Pow2(n + 8) == 256 * Pow2(n)
  {
    assert Pow2(n + 2) == 4 * Pow2(n);
    assert Pow2(n + 4) == 4 * Pow2(n + 2);
    assert Pow2(n + 6) == 4 * Pow2(n + 4);
  }

  lemma Pow2Word()
    ensures Pow2(64) == TWO64
  {
    Pow2Byte(0);
    Pow2Byte(8);
    Pow2Byte(16);
    Pow2Byte(24);
    Pow2Byte(32);
    Pow2Byte(40);
    Pow2Byte(48);
    Pow2Byte(56);
  }
}

/** The bytes of text. */
module Bytes {
  type Byte = x: int | 0 <= x < 256
}

/** The bytes that are hashed, on which the hashes do word arithmetic. */
module HashBytes {
  type Byte = bv8

  function Flatten(chunks: seq<seq<Byte>>): seq<Byte> {
    if chunks == [] then [] else Flatten(chunks[..|chunks| - 1]) + chunks[|chunks| - 1]
  }
}
