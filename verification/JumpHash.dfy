/** Jump consistent hashing, with the floating-point division and product under any faithful rounding. */
module JumpHash {
  import opened Sizes

  // ----- the jump sequence -----

  /** The generator of a key's jumps: the next key, and the next jump from a bucket under a key. */
  datatype Jumper = Jumper(next: nat -> nat, jump: (int, nat) -> int) {
    /** Every jump goes ahead, and keys stay 64-bit words. */
    ghost predicate Ahead() {
      && (forall key: nat :: key < TWO64 ==> next(key) < TWO64)
      && (forall b, key: nat | 0 <= b <= INT_MAX && key < TWO64 :: b + 1 <= jump(b, key))
    }
  }

  function KeyAt(g: Jumper, key: nat, i: nat): nat {
    if i == 0 then key else g.next(KeyAt(g, key, i - 1))
  }

  /** The bucket counts at which a key moves to the last bucket. The sequence does not depend on how many
      buckets there are. */
  function JumpAt(g: Jumper, key: nat, i: nat): int {
    if i == 0 then 0 else g.jump(JumpAt(g, key, i - 1), KeyAt(g, key, i))
  }

  /** Jump i is the last one below n. */
  ghost predicate LandsAt(g: Jumper, key: nat, n: int, i: nat) {
    (forall m: nat :: m <= i ==> JumpAt(g, key, m) < n) && n <= JumpAt(g, key, i + 1)
  }

  lemma {:induction false} KeyIsWord(g: Jumper, key: nat, i: nat)
    requires g.Ahead() && key < TWO64
    ensures KeyAt(g, key, i) < TWO64
  {
    if i > 0 {
      KeyIsWord(g, key, i - 1);
    }
  }

  lemma OneAhead(g: Jumper, key: nat, i: nat)
    requires g.Ahead() && key < TWO64 && 0 <= JumpAt(g, key, i) <= INT_MAX
    ensures JumpAt(g, key, i + 1) >= JumpAt(g, key, i) + 1
  {
    KeyIsWord(g, key, i + 1);
  }

  /** The jump sequence is strictly increasing as far as bucket counts go. */
  lemma {:induction false} Increasing(g: Jumper, key: nat, i: nat, k: nat)
    requires g.Ahead() && key < TWO64 && i <= k
    requires forall m: nat :: m < k ==> JumpAt(g, key, m) <= INT_MAX
    ensures JumpAt(g, key, k) >= JumpAt(g, key, i) + (k - i) && JumpAt(g, key, i) >= 0
    decreases k
  {
    if k > 0 {
      if i < k {
        Increasing(g, key, i, k - 1);
      }
      Increasing(g, key, k - 1, k - 1);
      OneAhead(g, key, k - 1);
    }
  }

  /**
   * Minimal movement: growing from n to m buckets leaves a key where it is, or moves it to one of the new
   * buckets; and it moves exactly when its next jump is below m.
   */
  lemma MinimalMovement(g: Jumper, key: nat, n: int, i: nat, m: int, k: nat)
    requires g.Ahead() && key < TWO64 && n <= m <= INT_MAX
    requires LandsAt(g, key, n, i) && LandsAt(g, key, m, k)
    ensures JumpAt(g, key, k) == JumpAt(g, key, i) || n <= JumpAt(g, key, k) < m
    ensures JumpAt(g, key, k) != JumpAt(g, key, i) <==> JumpAt(g, key, i + 1) < m
  {
    if k < i {
      assert false;
    }
    Increasing(g, key, i, k);
    if k > i {
      Increasing(g, key, i + 1, k);
    }
  }

  /** JumpConsistentHash over any generator and for any int32 bucket count. */
  method Land(g: Jumper, key: nat, n: int) returns (b: int, ghost i: nat)
    requires g.Ahead() && key < TWO64 && n <= INT_MAX
    ensures n <= 0 ==> b == -1
    ensures n >= 1 ==> 0 <= b < n && b == JumpAt(g, key, i) && LandsAt(g, key, n, i)
  {
    b, i := -1, 0;
    var j, k := 0, key;
    ghost var turns: nat := 0;
    while j < n
      invariant 0 <= j && k == KeyAt(g, key, turns) && k < TWO64 && j == JumpAt(g, key, turns)
      invariant if turns == 0 then b == -1 else i == turns - 1 && 0 <= b < n && b == JumpAt(g, key, i)
      invariant forall m: nat :: m < turns ==> JumpAt(g, key, m) < n
      decreases n - j
    {
      b, i := j, turns;
      k := g.next(k);
      j := g.jump(b, k);
      turns := turns + 1;
    }
  }

  // ----- the generator of the source -----

  /** What the proofs need of double rounding: it is monotone, exact on integers up to 2^53, and on 2^62. */
  ghost predicate Rounding(rnd: real -> real) {
    && (forall x, y :: x <= y ==> rnd(x) <= rnd(y))
    && (forall x :: 0.0 <= x <= 9007199254740992.0 && x.Floor as real == x ==> rnd(x) == x)
    && rnd(4611686018427387904.0) == 4611686018427387904.0
  }

  function NextKey(key: nat): nat {
    (key * 2862933555777941757 + 1) % TWO64
  }

  /** double(1LL << 31) / double((key >> 33) + 1) */
  function Stretch(rnd: real -> real, key: nat): real {
    rnd(2147483648.0 / (key / 0x2_0000_0000 + 1) as real)
  }

  /** (b + 1) * stretch, truncated to an int64. */
  function NextJump(rnd: real -> real, b: int, key: nat): int {
    Product(rnd, (b + 1) as real, Stretch(rnd, key)).Floor
  }

  function Product(rnd: real -> real, x: real, y: real): real {
    rnd(x * y)
  }

  function JumpGenerator(rnd: real -> real): Jumper {
    Jumper(NextKey, (b, key: nat) => NextJump(rnd, b, key))
  }

  lemma QuotientBounds(x: real, q: real)
    requires 1.0 <= x <= 2147483648.0 && q == 2147483648.0 / x
    ensures 1.0 <= q <= 2147483648.0
  {
    assert q * x == 2147483648.0;
  }

  lemma StretchBounds(rnd: real -> real, key: nat)
    requires Rounding(rnd) && key < TWO64
    ensures 1.0 <= Stretch(rnd, key) <= 2147483648.0
  {
    var x := (key / 0x2_0000_0000 + 1) as real;
    QuotientBounds(x, 2147483648.0 / x);
    assert rnd(1.0) == 1.0 && rnd(2147483648.0) == 2147483648.0;
  }

  lemma ProductSign(x: real, y: real)
    requires x >= 0.0 && y >= 0.0
    ensures x * y >= 0.0
  {
  }

  lemma ProductBounds(x: real, q: real)
    requires 0.0 <= x <= 2147483648.0 && 1.0 <= q <= 2147483648.0
    ensures x <= x * q <= 4611686018427387904.0
  {
    ProductSign(x, q - 1.0);
    ProductSign(2147483648.0 - x, q);
  }

  /** Whatever the rounding, a jump goes ahead and fits an int64. */
  lemma JumpAhead(rnd: real -> real, b: int, key: nat)
    requires Rounding(rnd) && key < TWO64 && 0 <= b <= INT_MAX
    ensures b + 1 <= NextJump(rnd, b, key) <= 0x4000_0000_0000_0000
  {
    StretchBounds(rnd, key);
    RoundedProduct(rnd, (b + 1) as real, Stretch(rnd, key));
    FloorWithin(b + 1, Product(rnd, (b + 1) as real, Stretch(rnd, key)));
  }

  lemma RoundedProduct(rnd: real -> real, x: real, q: real)
    requires Rounding(rnd) && 0.0 <= x <= 2147483648.0 && x.Floor as real == x && 1.0 <= q <= 2147483648.0
    ensures x <= Product(rnd, x, q) <= 4611686018427387904.0
  {
    ProductBounds(x, q);
    RoundedWithin(rnd, x, x * q);
  }

  lemma RoundedWithin(rnd: real -> real, x: real, p: real)
    requires Rounding(rnd) && 0.0 <= x <= 2147483648.0 && x.Floor as real == x && x <= p <= 4611686018427387904.0
    ensures x <= rnd(p) <= 4611686018427387904.0
  {
    assert rnd(x) <= rnd(p) <= rnd(4611686018427387904.0);
  }

  lemma FloorWithin(n: int, r: real)
    requires n as real <= r <= 4611686018427387904.0
    ensures n <= r.Floor <= 0x4000_0000_0000_0000
  {
  }

  lemma GeneratorAhead(rnd: real -> real)
    requires Rounding(rnd)
    ensures JumpGenerator(rnd).Ahead()
  {
    forall b, key: nat | 0 <= b <= INT_MAX && key < TWO64 ensures b + 1 <= NextJump(rnd, b, key) {
      JumpAhead(rnd, b, key);
    }
  }

  /** JumpConsistentHash with n and with m >= n buckets: the key stays, or moves to a new bucket, which for
      m == n + 1 is bucket n. With no buckets the result is -1. */
  method Grow(rnd: real -> real, key: nat, n: int, m: int) returns (b: int, c: int)
    requires Rounding(rnd) && key < TWO64 && n <= m <= INT_MAX
    ensures if n <= 0 then b == -1 else 0 <= b < n && (c == b || n <= c < m)
  {
    GeneratorAhead(rnd);
    b, c := GrowOver(JumpGenerator(rnd), key, n, m);
  }

  method GrowOver(g: Jumper, key: nat, n: int, m: int) returns (b: int, c: int)
    requires g.Ahead() && key < TWO64 && n <= m <= INT_MAX
    ensures if n <= 0 then b == -1 else 0 <= b < n && (c == b || n <= c < m)
  {
    ghost var i, k;
    b, i := Land(g, key, n);
    c, k := Land(g, key, m);
    if n > 0 {
      MinimalMovement(g, key, n, i, m, k);
    }
  }
}
