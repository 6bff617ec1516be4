/** The doubles behind cJSON's numbers: their bits give their values the order and the scale of IEEE 754. */
module CJsonDouble {
  import opened CJsonNumber
  import opened Powers

  /** The distance between neighbours with this exponent. */
  function Unit(e: nat): real {
    var b := if e == 0 then 1 else e;
    if b >= 1075 then Pow2(b - 1075) as real else 1.0 / Pow2(1075 - b) as real
  }

  function Mantissa(e: nat, f: nat): nat {
    if e == 0 then f else 0x10_0000_0000_0000 + f
  }

  lemma Quotient(n: real, d: real, q: real)
    requires d > 0.0 && n == q * d
    ensures n / d == q
  {
  }

  lemma HalfUnit(n: nat)
    ensures 1.0 / Pow2(n) as real == 2.0 * (1.0 / Pow2(n + 1) as real)
  {
    var p := Pow2(n) as real;
    assert Pow2(n + 1) as real == 2.0 * p;
    Quotient(1.0, p, 2.0 * (1.0 / (2.0 * p)));
  }

  lemma UnitDoubles(e: nat)
    ensures Unit(e) > 0.0 && Unit(e + 1) == if e == 0 then Unit(e) else 2.0 * Unit(e)
  {
    if e >= 1075 {
      assert Pow2(e - 1074) == 2 * Pow2(e - 1075);
    } else if e > 0 {
      HalfUnit(1074 - e);
    }
  }

  lemma ScaledUnits(e: nat, f: nat)
    ensures Scaled(e, f) == Mantissa(e, f) as real * Unit(e)
  {
    var b := if e == 0 then 1 else e;
    if b < 1075 {
      var m, p := Mantissa(e, f) as real, Pow2(1075 - b) as real;
      Quotient(m, p, m * (1.0 / p));
    }
  }

  lemma OneMore(m: real, u: real)
    ensures m * u + u == (m + 1.0) * u
  {
  }

  lemma NextFraction(e: nat, f: nat)
    ensures Scaled(e, f) + Unit(e) == Scaled(e, f + 1)
  {
    ScaledUnits(e, f);
    ScaledUnits(e, f + 1);
    OneMore(Mantissa(e, f) as real, Unit(e));
  }

  lemma NextExponent(e: nat)
    ensures Scaled(e, 0xF_FFFF_FFFF_FFFF) + Unit(e) == Scaled(e + 1, 0)
  {
    NextFraction(e, 0xF_FFFF_FFFF_FFFF);
    ScaledUnits(e, 0x10_0000_0000_0000);
    ScaledUnits(e + 1, 0);
    UnitDoubles(e);
  }

  /** One more in the last place, with its carry, is one unit more. */
  lemma NextScaled(e: nat, f: nat)
    requires f < 0x10_0000_0000_0000
    ensures Scaled(e, f) + Unit(e) == if f + 1 < 0x10_0000_0000_0000 then Scaled(e, f + 1) else Scaled(e + 1, 0)
  {
    if f + 1 < 0x10_0000_0000_0000 {
      NextFraction(e, f);
    } else {
      NextExponent(e);
    }
  }

  lemma NextFields(d: Double)
    requires d + 1 < 0x8000_0000_0000_0000
    ensures if Fraction(d) + 1 < 0x10_0000_0000_0000
            then Exponent(d + 1) == Exponent(d) && Fraction(d + 1) == Fraction(d) + 1
            else Exponent(d + 1) == Exponent(d) + 1 && Fraction(d + 1) == 0
  {
    assert d == 0x10_0000_0000_0000 * Exponent(d) + Fraction(d);
  }

  /** The next double is one unit larger. */
  lemma Neighbours(d: Double)
    requires d + 1 < 0x8000_0000_0000_0000 && Finite(d) && Finite(d + 1)
    ensures RealOf(d + 1) == RealOf(d) + Unit(Exponent(d)) && Unit(Exponent(d)) > 0.0
  {
    NextFields(d);
    NextScaled(Exponent(d), Fraction(d));
    UnitDoubles(Exponent(d));
  }

  lemma FiniteBelow(d: Double, e: Double)
    requires d <= e < 0x8000_0000_0000_0000 && Finite(e)
    ensures Finite(d)
  {
  }

  /** Larger bits, larger value. */
  lemma {:induction false} Ordered(d: Double, e: Double)
    requires d < e < 0x8000_0000_0000_0000 && Finite(e)
    ensures Finite(d) && RealOf(d) < RealOf(e)
    decreases e - d
  {
    FiniteBelow(d, e);
    FiniteBelow(d + 1, e);
    Neighbours(d);
    if d + 1 < e {
      Ordered(d + 1, e);
    }
  }

  lemma SameFields(d: Double)
    requires d < 0x8000_0000_0000_0000
    ensures Exponent(d + 0x8000_0000_0000_0000) == Exponent(d) && Fraction(d + 0x8000_0000_0000_0000) == Fraction(d)
  {
  }

  /** The sign bit negates. */
  lemma Signs(d: Double)
    requires d < 0x8000_0000_0000_0000 && Finite(d)
    ensures Finite(d + 0x8000_0000_0000_0000) && RealOf(d + 0x8000_0000_0000_0000) == -RealOf(d)
  {
    SameFields(d);
  }

  lemma PowNext(n: nat, m: nat, p: nat)
    requires m == n + 8 && Pow2(n) == p
    ensures Pow2(m) == 256 * p
  {
    Pow2Byte(n);
  }

  lemma Pow28(n: nat)
    requires n == 28
    ensures Pow2(n) == 0x1000_0000
  {
    assert Pow2(12) == 0x1000;
    PowNext(12, n - 8, 0x1000);
    PowNext(n - 8, n, 0x10_0000);
  }

  lemma Pow52(n: nat)
    requires n == 52
    ensures Pow2(n) == 0x10_0000_0000_0000
  {
    Pow28(n - 24);
    PowNext(n - 24, n - 16, 0x1000_0000);
    PowNext(n - 16, n - 8, 0x10_0000_0000);
    PowNext(n - 8, n, 0x1000_0000_0000);
  }

  lemma One(e: nat)
    requires e == 1023
    ensures Scaled(e, 0) == 1.0
  {
    Pow52(1075 - e);
    Quotient(0x10_0000_0000_0000 as real, 0x10_0000_0000_0000 as real, 1.0);
  }

  lemma Zero(e: nat)
    requires e == 0
    ensures Scaled(e, 0) == 0.0
  {
    ScaledUnits(e, 0);
  }

  /** The bits of zero and of one, from which the units give every value. */
  lemma ZeroAndOne(zero: Double, one: Double)
    requires zero == 0 && one == 0x3FF0_0000_0000_0000
    ensures Finite(zero) && RealOf(zero) == 0.0 && Finite(one) && RealOf(one) == 1.0
  {
    Zero(Exponent(zero));
    One(Exponent(one));
  }

  /** The integer beside a number: its value without the part behind the point, kept within 32 bits. */
  lemma SaturatedExactly(d: Double, n: int)
    requires Finite(d)
    ensures Saturated(d) == n <==>
      var r := RealOf(d);
      if r >= 2147483647.0 then n == 2147483647
      else if r <= -2147483648.0 then n == -2147483648
      else if r >= 0.0 then n as real <= r < (n + 1) as real
      else (n - 1) as real < r <= n as real
  {
    TruncatedExactly(RealOf(d), n);
  }

  lemma TruncatedExactly(r: real, n: int)
    ensures Truncated(r) == n <==>
      if r >= 0.0 then n as real <= r < (n + 1) as real else (n - 1) as real < r <= n as real
  {
  }
}
