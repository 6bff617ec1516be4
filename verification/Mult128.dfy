/** XXH_mult64to128: the portable 64x64 to 128 bit multiply from four 32-bit products. */
module Mult128 {
  import opened Sizes

  const DIGIT_MAX: nat := 0xFFFF_FFFF

  type U64 = x: int | 0 <= x < TWO64

  /** A product of two 32-bit digits. */
  type Product = x: int | 0 <= x <= 0xFFFF_FFFE_0000_0001

  function DigitProduct(x: nat, y: nat): (p: Product)
    requires x <= DIGIT_MAX && y <= DIGIT_MAX
    ensures p == x * y
  {
    MulMonotone(x, DIGIT_MAX, y);
    x * y
  }

  lemma LongMultiplication(a: nat, b: nat, c: nat, d: nat)
    ensures (a * TWO32 + b) * (c * TWO32 + d) == a * c * TWO64 + (a * d + b * c) * TWO32 + b * d
  {
    calc {
      (a * TWO32 + b) * (c * TWO32 + d);
      (a * TWO32) * (c * TWO32 + d) + b * (c * TWO32 + d);
      { assert (a * TWO32) * (c * TWO32) == a * c * TWO64; }
      a * c * TWO64 + (a * d) * TWO32 + b * c * TWO32 + b * d;
    }
  }

  /** Adds the partial products. Every local is a `U64`, so no sum overflows; the bitwise or joins two
      halves that share no bits, which makes it a sum. */
  method AddProducts(lo_lo: Product, hi_lo: Product, lo_hi: Product, hi_hi: Product) returns (low64: U64, high64: U64)
    ensures high64 * TWO64 + low64 == hi_hi * TWO64 + (hi_lo + lo_hi) * TWO32 + lo_lo
  {
    var digits: U64 := lo_lo / TWO32 + hi_lo % TWO32;
    var cross: U64 := digits + lo_hi;
    var carries: U64 := hi_lo / TWO32 + cross / TWO32;
    var upper: U64 := carries + hi_hi;
    var shifted: U64 := (cross % TWO32) * TWO32;
    assert shifted == cross * TWO32 % TWO64;
    var lower: U64 := shifted + lo_lo % TWO32;
    low64, high64 := lower, upper;
  }

  method Multiply(lhs: U64, rhs: U64) returns (low64: U64, high64: U64)
    ensures high64 * TWO64 + low64 == lhs * rhs
  {
    var lo_lo := DigitProduct(lhs % TWO32, rhs % TWO32);
    var hi_lo := DigitProduct(lhs / TWO32, rhs % TWO32);
    var lo_hi := DigitProduct(lhs % TWO32, rhs / TWO32);
    var hi_hi := DigitProduct(lhs / TWO32, rhs / TWO32);
    low64, high64 := AddProducts(lo_lo, hi_lo, lo_hi, hi_hi);
    LongMultiplication(lhs / TWO32, lhs % TWO32, rhs / TWO32, rhs % TWO32);
  }

  /** The two words are the halves of the product. */
  method MultiplyToHalves(lhs: U64, rhs: U64) returns (low64: U64, high64: U64)
    ensures low64 == lhs * rhs % TWO64 && high64 == lhs * rhs / TWO64
  {
    low64, high64 := Multiply(lhs, rhs);
    Halves(low64, high64, lhs * rhs);
  }

  lemma Halves(low64: U64, high64: U64, p: nat)
    requires high64 * TWO64 + low64 == p
    ensures low64 == p % TWO64 && high64 == p / TWO64
  {
  }

  lemma ProductBound(x: U64, y: U64)
    ensures 0 <= x * y / TWO64 < TWO64
  {
    MulMonotone(x, TWO64, y);
    QuotientBound(x * y, y);
  }

  lemma QuotientBound(p: nat, q: nat)
    requires p <= TWO64 * q && q < TWO64
    ensures 0 <= p / TWO64 < TWO64
  {
  }
}
