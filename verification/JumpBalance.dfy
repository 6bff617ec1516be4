/** The generator of the jump consistent hash in whole numbers: keys never meet, and jumps spread a key evenly. */
module JumpBalance {
  import opened Counting
  import opened JumpHash
  import opened Sizes

  // ----- keys -----

  /** The inverse of the multiplier modulo 2^64. */
  const INVERSE: nat := 16133697096952638549

  function PreviousKey(key: nat): nat {
    (key + 0xFFFF_FFFF_FFFF_FFFF) * INVERSE % 0x1_0000_0000_0000_0000
  }

  lemma Remainder(n: int, m: nat, q: int, r: nat)
    requires m == 0x1_0000_0000_0000_0000 && r < m && n == r + m * q
    ensures n % m == r
  {
  }

  lemma NextUndone(key: nat)
    requires key < 0x1_0000_0000_0000_0000
    ensures PreviousKey(NextKey(key)) == key
  {
    var q := (key * 2862933555777941757 + 1) / 0x1_0000_0000_0000_0000;
    Remainder((NextKey(key) + 0xFFFF_FFFF_FFFF_FFFF) * INVERSE, 0x1_0000_0000_0000_0000,
              2503948805982125087 * key + (1 - q) * INVERSE, key);
  }

  lemma PreviousUndone(key: nat)
    requires key < 0x1_0000_0000_0000_0000
    ensures NextKey(PreviousKey(key)) == key
  {
    var before := key + 0xFFFF_FFFF_FFFF_FFFF;
    var q := before * INVERSE / 0x1_0000_0000_0000_0000;
    Remainder(PreviousKey(key) * 2862933555777941757 + 1, 0x1_0000_0000_0000_0000,
              1 + 2503948805982125087 * before - 2862933555777941757 * q, key);
  }

  /** The key sequence can be run backwards, so different keys never meet, however often they are advanced. */
  lemma {:induction false} KeysApart(rnd: real -> real, x: nat, y: nat, i: nat)
    requires x < 0x1_0000_0000_0000_0000 && y < 0x1_0000_0000_0000_0000 && x != y
    ensures KeyAt(JumpGenerator(rnd), x, i) != KeyAt(JumpGenerator(rnd), y, i)
  {
    if i > 0 {
      KeysApart(rnd, x, y, i - 1);
      KeyStaysWord(rnd, x, i - 1);
      KeyStaysWord(rnd, y, i - 1);
      NextUndone(KeyAt(JumpGenerator(rnd), x, i - 1));
      NextUndone(KeyAt(JumpGenerator(rnd), y, i - 1));
    }
  }

  lemma KeyStaysWord(rnd: real -> real, key: nat, i: nat)
    requires key < 0x1_0000_0000_0000_0000
    ensures KeyAt(JumpGenerator(rnd), key, i) < 0x1_0000_0000_0000_0000
  {
  }

  // ----- jumps, with exact arithmetic -----

  function Exact(x: real): real { x }

  lemma FloorExactly(p: real, j: int)
    ensures p.Floor == j <==> j as real <= p < (j + 1) as real
  {
  }

  lemma TimesPositive(x: real, y: real, d: real)
    requires d > 0.0
    ensures x <= y <==> x * d <= y * d
  {
  }

  lemma Divided(n: real, d: real, f: real)
    requires d > 0.0
    ensures f * (n / d) * d == f * n
  {
  }

  /** A jump without its division: `j` times the divisor is its last multiple up to 2^31 times the bucket count. */
  lemma JumpExactly(b: nat, key: nat, j: int)
    ensures var d := key / 0x2_0000_0000 + 1;
            NextJump(Exact, b, key) == j <==> j * d <= (b + 1) * 0x8000_0000 < (j + 1) * d
  {
    var d := key / 0x2_0000_0000 + 1;
    var p := (b + 1) as real * (2147483648.0 / d as real);
    Divided(2147483648.0, d as real, (b + 1) as real);
    FloorExactly(p, j);
    TimesPositive(j as real, p, d as real);
    TimesPositive((j + 1) as real, p, d as real);
  }

  lemma AtLeast(b: nat, key: nat, m: nat)
    ensures NextJump(Exact, b, key) >= m <==> m * (key / 0x2_0000_0000 + 1) <= (b + 1) * 0x8000_0000
  {
    var d, j := key / 0x2_0000_0000 + 1, NextJump(Exact, b, key);
    JumpExactly(b, key, j);
    if j >= m {
      MulMonotone(m, j, d);
    } else if j >= 0 {
      MulMonotone(j + 1, m, d);
    }
  }

  /** The generator outputs, by their high 31 bits, under which a key of bucket `b` is still there with `m` buckets. */
  ghost predicate Stays(b: nat, m: nat, high: nat) {
    high < 0x8000_0000 && NextJump(Exact, b, high * 0x2_0000_0000) >= m
  }

  /** Of the 2^31 outputs, a share of (b + 1) / m leaves a key in bucket `b` until there are more than `m` buckets. This
      is what makes the buckets equally full. */
  lemma Balance(b: nat, m: nat, stay: set<nat>)
    requires b < m && forall high :: high in stay <==> Stays(b, m, high)
    ensures |stay| == (b + 1) * 0x8000_0000 / m
  {
    var n := (b + 1) * 0x8000_0000;
    var all := Between(0, n / m);
    forall high: nat ensures high in stay <==> high in all {
      AtLeast(b, high * 0x2_0000_0000, m);
      QuotientExactly(n, m, high);
      ShareBound(b, m);
    }
    assert stay == all;
  }

  lemma QuotientExactly(n: nat, m: nat, high: nat)
    requires m > 0
    ensures m * (high + 1) <= n <==> high < n / m
  {
    if high < n / m {
      MulMonotone(high + 1, n / m, m);
    } else {
      MulMonotone(n / m + 1, high + 1, m);
    }
  }

  lemma ShareBound(b: nat, m: nat)
    requires b < m
    ensures (b + 1) * 0x8000_0000 / m <= 0x8000_0000
  {
    MulMonotone(b + 1, m, 0x8000_0000);
    QuotientExactly((b + 1) * 0x8000_0000, m, 0x8000_0000);
  }

  /** A known jump: key 1 leaves bucket 0 for bucket 6, as soon as there are seven buckets. */
  lemma FirstMove(key: nat)
    requires key == 1
    ensures JumpAt(JumpGenerator(Exact), key, 1) == 6
  {
    assert KeyAt(JumpGenerator(Exact), key, 1) == 2862933555777941758;
    JumpExactly(0, 2862933555777941758, 6);
  }
}
