/** Numbers in cJSON: what parse_number reads and stores, and what print_number writes. The C library's number
conversions are parameters. */
module CJsonNumber {
  import opened Bytes
  import JsonNumbers
  import opened Options
  import opened Powers
  import opened Sizes

  /** A double, by its 64 bits. */
  type Double = bits: int | 0 <= bits < 0x1_0000_0000_0000_0000

  const INT_MIN: int := -0x8000_0000
  const NULL_WORD: seq<Byte> := [110, 117, 108, 108]
  const NUMBER_BUFFER: nat := 25

  /** How many bytes of a text strtod reads, 0 when it reads no number, and the double it gives. */
  type Strtod = seq<Byte> -> (nat, Double)

  /** strtod and sscanf, sprintf with %1.15g and with %1.17g, and compare_double. */
  datatype Floating = Floating(
    strtod: Strtod,
    g15: Double -> seq<Byte>,
    g17: Double -> seq<Byte>,
    close: (Double, Double) -> bool)

  // ----- doubles -----

  predicate Negative(d: Double) {
    d >= 0x8000_0000_0000_0000
  }

  function Exponent(d: Double): nat {
    d / 0x10_0000_0000_0000 % 0x800
  }

  function Fraction(d: Double): nat {
    d % 0x10_0000_0000_0000
  }

  /** Neither an infinity nor a NaN. */
  predicate Finite(d: Double) {
    Exponent(d) != 0x7FF
  }

  predicate Nan(d: Double) {
    Exponent(d) == 0x7FF && Fraction(d) != 0
  }

  /** The value of an exponent and a fraction; the exponent 0 has no leading one. */
  function Scaled(e: nat, f: nat): real {
    var m := if e == 0 then f else 0x10_0000_0000_0000 + f;
    var b := if e == 0 then 1 else e;
    if b >= 1075 then m as real * Pow2(b - 1075) as real else m as real / Pow2(1075 - b) as real
  }

  function Magnitude(d: Double): real
    requires Finite(d)
  {
    Scaled(Exponent(d), Fraction(d))
  }

  function RealOf(d: Double): real
    requires Finite(d)
  {
    if Negative(d) then -Magnitude(d) else Magnitude(d)
  }

  /** `d >= n` and `d <= n` as C compares a double with an integer. */
  predicate AtLeast(d: Double, n: int) {
    if Nan(d) then false else if Finite(d) then RealOf(d) >= n as real else !Negative(d)
  }

  predicate AtMost(d: Double, n: int) {
    if Nan(d) then false else if Finite(d) then RealOf(d) <= n as real else Negative(d)
  }

  /** Rounds towards zero, as the conversion to int does. */
  function Truncated(r: real): int {
    if r >= 0.0 then r.Floor else -(-r).Floor
  }

  /** The double truncated and kept within the range of an int; the infinities give its ends. */
  function Saturated(d: Double): int
    requires !Nan(d)
  {
    if !Finite(d) then if Negative(d) then INT_MIN else INT_MAX
    else
      var n := Truncated(RealOf(d));
      if n > INT_MAX then INT_MAX else if n < INT_MIN then INT_MIN else n
  }

  // ----- reading -----

  predicate NumberByte(b: Byte) {
    48 <= b <= 57 || b == 43 || b == 45 || b == 101 || b == 69 || b == 46
  }

  predicate StartsNumber(b: Byte) {
    b == 45 || 48 <= b <= 57
  }

  /** The bytes that parse_number copies, at most `limit` of them, all of them number bytes. */
  function NumberRun(s: seq<Byte>, limit: nat): (r: seq<Byte>)
    ensures |r| <= |s| && r == s[..|r|]
    ensures forall i :: 0 <= i < |r| ==> NumberByte(r[i])
    decreases limit
  {
    if limit == 0 || s == [] || !NumberByte(s[0]) then [] else [s[0]] + NumberRun(s[1..], limit - 1)
  }

  /** parse_number: the double, and how many bytes it takes. */
  function NumberAt(strtod: Strtod, s: seq<Byte>): (r: Option<(Double, nat)>)
    ensures r.Some? ==> 0 < r.value.1 <= |s|
    ensures r.Some? && s[|s| - 1] == 0 ==> r.value.1 < |s|
  {
    NumberWithin(strtod, s, 63)
  }

  function NumberWithin(strtod: Strtod, s: seq<Byte>, limit: nat): (r: Option<(Double, nat)>)
    ensures r.Some? ==> 0 < r.value.1 <= |s|
    ensures r.Some? && s[|s| - 1] == 0 ==> r.value.1 < |s|
  {
    var run := NumberRun(s, limit);
    var (n, d) := strtod(run);
    if n == 0 || n > |run| then None
    else
      assert NumberByte(run[n - 1]) && run[n - 1] == s[n - 1];
      Some((d, n))
  }

  /** The first `k` bytes are what parse_number copies: number bytes, up to 63 of them or to the first byte that is not
      one. */
  ghost predicate Copies(s: seq<Byte>, k: nat) {
    && k <= |s| && k <= 63
    && (forall i :: 0 <= i < k ==> JsonNumbers.NumberChar(s[i]))
    && (k == 63 || k == |s| || !JsonNumbers.NumberChar(s[k]))
  }

  lemma {:induction false} RunExactly(s: seq<Byte>, limit: nat)
    ensures var r := NumberRun(s, limit);
            |r| <= limit && (|r| == limit || |r| == |s| || !JsonNumbers.NumberChar(s[|r|]))
    decreases limit
  {
    if limit != 0 && s != [] && NumberByte(s[0]) {
      RunExactly(s[1..], limit - 1);
    }
  }

  lemma CopiesOnce(s: seq<Byte>, j: nat, k: nat)
    requires Copies(s, j) && Copies(s, k)
    ensures j == k
  {
  }

  lemma CopiesRun(s: seq<Byte>)
    ensures Copies(s, |NumberRun(s, 63)|)
  {
    var r := NumberRun(s, 63);
    RunExactly(s, 63);
    forall i | 0 <= i < |r| ensures JsonNumbers.NumberChar(s[i]) {
      assert NumberByte(r[i]) && r[i] == s[i];
    }
  }

  /** Exactly the run is copied. */
  lemma CopiesExactly(s: seq<Byte>, k: nat)
    ensures Copies(s, k) <==> k == |NumberRun(s, 63)|
  {
    CopiesRun(s);
    if Copies(s, k) {
      CopiesOnce(s, k, |NumberRun(s, 63)|);
    }
  }

  /** parse_number, exactly: strtod reads a beginning of what is copied. */
  lemma NumberExactly(strtod: Strtod, s: seq<Byte>, k: nat, d: Double, n: nat)
    requires Copies(s, k)
    ensures NumberAt(strtod, s) == Some((d, n)) <==> 0 < n <= k && strtod(s[..k]) == (n, d)
  {
    CopiesExactly(s, k);
  }

  /** The double of a text that parse_number reads in full. */
  function TextValue(strtod: Strtod, t: seq<Byte>): Option<Double> {
    if 0 < |t| <= 63 && StartsNumber(t[0]) && (forall b :: b in t ==> NumberByte(b)) && strtod(t).0 == |t| then
      Some(strtod(t).1)
    else None
  }

  lemma {:induction false} NumberRunOf(t: seq<Byte>, rest: seq<Byte>, limit: nat)
    requires |t| <= limit && (forall b :: b in t ==> NumberByte(b)) && rest != [] && !NumberByte(rest[0])
    ensures NumberRun(t + rest, limit) == t
    decreases limit
  {
    if t == [] {
      assert t + rest == rest;
    } else {
      assert (t + rest)[1..] == t[1..] + rest;
      NumberRunOf(t[1..], rest, limit - 1);
      assert t == [t[0]] + t[1..];
    }
  }

  lemma NumberOfText(strtod: Strtod, t: seq<Byte>, rest: seq<Byte>)
    requires TextValue(strtod, t).Some? && rest != [] && !NumberByte(rest[0])
    ensures NumberAt(strtod, t + rest) == Some((TextValue(strtod, t).value, |t|))
  {
    NumberRunOf(t, rest, 63);
  }

  /** parse_number: the double, how many bytes it takes, and the integer stored beside it. The conversion of a NaN,
      which no text gives, is undefined. */
  method ReadNumber(strtod: Strtod, s: seq<Byte>) returns (r: Option<(Double, nat)>, valueint: int)
    ensures r == NumberAt(strtod, s)
    ensures r.Some? && !Nan(r.value.0) ==> valueint == Saturated(r.value.0)
  {
    r := ReadNumberWithin(strtod, s, 63);
    valueint := 0;
    if r.Some? && !Nan(r.value.0) {
      valueint := Saturate(r.value.0);
    }
  }

  method ReadNumberWithin(strtod: Strtod, s: seq<Byte>, limit: nat) returns (r: Option<(Double, nat)>)
    ensures r == NumberWithin(strtod, s, limit)
  {
    var i := 0;
    assert s[0..] == s && s[..0] == [];
    while i < limit && i < |s| && NumberByte(s[i])
      invariant i <= limit && i <= |s|
      invariant NumberRun(s, limit) == s[..i] + NumberRun(s[i..], limit - i)
    {
      NumberRunStep(s, i, limit - i);
      i := i + 1;
    }
    assert NumberRun(s, limit) == s[..i];
    var (n, d) := strtod(s[..i]);
    r := if n == 0 || n > i then None else Some((d, n));
  }

  lemma NumberRunStep(s: seq<Byte>, i: nat, limit: nat)
    requires i < |s| && limit > 0 && NumberByte(s[i])
    ensures s[..i] + NumberRun(s[i..], limit) == s[..i + 1] + NumberRun(s[i + 1..], limit - 1)
  {
    assert s[i..][1..] == s[i + 1..];
    assert s[..i + 1] == s[..i] + [s[i]];
  }

  /** The comparisons and the conversion of parse_number. */
  method Saturate(d: Double) returns (valueint: int)
    requires !Nan(d)
    ensures valueint == Saturated(d)
  {
    if AtLeast(d, INT_MAX) {
      valueint := INT_MAX;
    } else if AtMost(d, INT_MIN) {
      valueint := INT_MIN;
    } else {
      valueint := Truncated(RealOf(d));
    }
  }

  // ----- writing -----

  /** The text that print_number makes: fifteen digits when they come close to the double, seventeen else. */
  function Rendered(fp: Floating, d: Double): seq<Byte> {
    if !Finite(d) then NULL_WORD
    else
      var (n, test) := fp.strtod(fp.g15(d));
      if n == 0 || !fp.close(test, d) then fp.g17(d) else fp.g15(d)
  }

  /** The double that comes back from a printed number, None when it is printed as null. */
  function Back(fp: Floating, d: Double): Option<Double> {
    if Finite(d) then TextValue(fp.strtod, Rendered(fp, d)) else None
  }

  /** What the C library promises of a finite double: its texts are JSON numbers, seventeen digits give it back, fifteen
      digits are kept by the double they give unless that overflows, and it is close to itself. */
  ghost predicate Converts(fp: Floating, d: Double) {
    && JsonNumbers.IsNumber(fp.g15(d)) && JsonNumbers.IsNumber(fp.g17(d))
    && TextValue(fp.strtod, fp.g15(d)).Some? && TextValue(fp.strtod, fp.g17(d)) == Some(d) && fp.close(d, d)
    && (Finite(TextValue(fp.strtod, fp.g15(d)).value) ==> fp.g15(TextValue(fp.strtod, fp.g15(d)).value) == fp.g15(d))
  }

  ghost predicate Lawful(fp: Floating) {
    forall d :: Finite(d) ==> Converts(fp, d)
  }

  /** A printed number is read back as some double; when that is finite it prints as the same text again. */
  lemma RenderedAgain(fp: Floating, d: Double)
    requires Lawful(fp) && Finite(d)
    ensures Back(fp, d).Some?
    ensures Finite(Back(fp, d).value) ==>
      Rendered(fp, Back(fp, d).value) == Rendered(fp, d) && Back(fp, Back(fp, d).value) == Back(fp, d)
  {
    assert Converts(fp, d);
    var e := TextValue(fp.strtod, fp.g15(d)).value;
    if Finite(e) {
      assert Converts(fp, e);
    }
  }

  /** The double itself comes back exactly when its fifteen digits give it, or give one that is not close. */
  lemma BackExactly(fp: Floating, d: Double)
    requires Lawful(fp) && Finite(d)
    ensures
      var test := TextValue(fp.strtod, fp.g15(d)).value;
      Back(fp, d) == Some(d) <==> test == d || !fp.close(test, d)
  {
    assert Converts(fp, d);
  }
}
