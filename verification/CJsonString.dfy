/** The escapes of cJSON's string literals: parse_hex4, UTF-16 units and pairs, and writing a code point as UTF-8. */
module CJsonString {
  import opened Bytes
  import opened Options

  const QUOTE: Byte := 34
  const BACKSLASH: Byte := 92
  const LETTER_U: Byte := 117

  // ----- UTF-16 escapes -----

  /** The value of a hexadecimal digit, -1 for any other byte. */
  function HexDigit(b: Byte): int {
    if 48 <= b <= 57 then b - 48
    else if 65 <= b <= 70 then b - 65 + 10
    else if 97 <= b <= 102 then b - 97 + 10
    else -1
  }

  /** The first `n` digits are hexadecimal. */
  predicate HexDigits(s: seq<Byte>, at: nat, n: nat)
    requires at + n <= |s|
  {
    forall i :: at <= i < at + n ==> HexDigit(s[i]) >= 0
  }

  function Pow16(n: nat): nat {
    if n == 0 then 1 else 16 * Pow16(n - 1)
  }

  /** The number that hexadecimal digits write. */
  function HexValue(s: seq<Byte>, at: nat, n: nat): (v: nat)
    requires at + n <= |s| && HexDigits(s, at, n)
    ensures v < Pow16(n)
  {
    if n == 0 then 0 else 16 * HexValue(s, at, n - 1) + HexDigit(s[at + n - 1])
  }

  /** What parse_hex4 computes: any digit that is not hexadecimal makes the whole value 0. */
  function Hex4(s: seq<Byte>, at: nat): (h: nat)
    requires at + 4 <= |s|
    ensures h < 0x10000
  {
    assert Pow16(4) == 0x10000;
    if HexDigits(s, at, 4) then HexValue(s, at, 4) else 0
  }

  /** parse_hex4. */
  method ParseHex4(s: seq<Byte>, at: nat) returns (h: nat)
    requires at + 4 <= |s|
    ensures h == Hex4(s, at)
  {
    h := 0;
    for i := 0 to 4
      invariant HexDigits(s, at, i)
      invariant h == if i == 4 then HexValue(s, at, i) else 16 * HexValue(s, at, i)
    {
      var d := HexDigit(s[at + i]);
      if d < 0 {
        return 0;
      }
      h := h + d;
      if i < 3 {
        h := h * 16;
      }
    }
  }

  predicate HighSurrogate(c: nat) { 0xD800 <= c <= 0xDBFF }

  predicate LowSurrogate(c: nat) { 0xDC00 <= c <= 0xDFFF }

  /** A Unicode scalar value. */
  predicate Scalar(c: nat) { c <= 0x10FFFF && !HighSurrogate(c) && !LowSurrogate(c) }

  /** `c` without its last `n` six-bit groups. */
  function Shifted(c: nat, n: nat): nat {
    if n == 0 then c else Shifted(c, n - 1) / 64
  }

  /** The last `n` six-bit groups, each in a byte of the form 10xxxxxx. */
  function Tails(c: nat, n: nat): (t: seq<Byte>)
    ensures |t| == n
  {
    if n == 0 then [] else [0x80 + Shifted(c, n - 1) % 64] + Tails(c, n - 1)
  }

  /** How many bytes follow the first one. */
  function TailCount(c: nat): (n: nat)
    ensures n <= 3
  {
    if c < 0x80 then 0 else if c < 0x800 then 1 else if c < 0x10000 then 2 else 3
  }

  function FirstByte(c: nat): Byte
    requires c <= 0x10FFFF
  {
    ShiftedBounds(c);
    match TailCount(c)
    case 0 => c
    case 1 => 0xC0 + Shifted(c, 1)
    case 2 => 0xE0 + Shifted(c, 2)
    case _ => 0xF0 + Shifted(c, 3)
  }

  lemma ShiftedBounds(c: nat)
    ensures Shifted(c, 1) == c / 64 && Shifted(c, 2) == c / 64 / 64 && Shifted(c, 3) == c / 64 / 64 / 64
  {
    assert Shifted(c, 2) == Shifted(c, 1) / 64;
  }

  /** The encoding of section 3 of RFC 3629. */
  function EncodeUtf8(c: nat): (b: seq<Byte>)
    requires c <= 0x10FFFF
    ensures |b| == 1 + TailCount(c)
  {
    [FirstByte(c)] + Tails(c, TailCount(c))
  }

  /** The payload of a byte above its marker bits. */
  function Payload(b: Byte, mark: int): int { b - mark }

  predicate Tail(b: Byte) { 0x80 <= b <= 0xBF }

  /** The scalar value of one well-formed UTF-8 sequence, by the grammar of section 4 of RFC 3629,
      which excludes overlong forms, surrogates and values above 10FFFF. */
  function DecodeUtf8(b: seq<Byte>): Option<nat> {
    if |b| == 1 && b[0] <= 0x7F then
      Some(b[0])
    else if |b| == 2 && 0xC2 <= b[0] <= 0xDF && Tail(b[1]) then
      Some(Payload(b[0], 0xC0) * 64 + Payload(b[1], 0x80))
    else if |b| == 3 && 0xE0 <= b[0] <= 0xEF && Tail(b[1]) && Tail(b[2]) &&
            (b[0] == 0xE0 ==> b[1] >= 0xA0) && (b[0] == 0xED ==> b[1] <= 0x9F) then
      Some(Payload(b[0], 0xE0) * 4096 + Payload(b[1], 0x80) * 64 + Payload(b[2], 0x80))
    else if |b| == 4 && 0xF0 <= b[0] <= 0xF4 && Tail(b[1]) && Tail(b[2]) && Tail(b[3]) &&
            (b[0] == 0xF0 ==> b[1] >= 0x90) && (b[0] == 0xF4 ==> b[1] <= 0x8F) then
      Some(Payload(b[0], 0xF0) * 262144 + Payload(b[1], 0x80) * 4096 + Payload(b[2], 0x80) * 64 + Payload(b[3], 0x80))
    else
      None
  }

  lemma DecodeEncoded(c: nat)
    requires Scalar(c)
    ensures DecodeUtf8(EncodeUtf8(c)) == Some(c)
  {
    ShiftedBounds(c);
    assert Tails(c, 1) == [0x80 + c % 64];
    assert Tails(c, 2) == [0x80 + c / 64 % 64] + Tails(c, 1);
    assert Tails(c, 3) == [0x80 + c / 64 / 64 % 64] + Tails(c, 2);
  }

  /** The code point named by a surrogate pair (section 7 of RFC 8259). */
  function PairValue(high: nat, low: nat): (c: nat)
    requires HighSurrogate(high) && LowSurrogate(low)
    ensures 0x10000 <= c <= 0x10FFFF
  {
    0x10000 + (high - 0xD800) * 0x400 + (low - 0xDC00)
  }

  /** What an escape starting at `at` stands for: how many bytes it takes and the code point, or
      nothing for a lone or badly paired surrogate or a truncated escape. */
  function Escape(s: seq<Byte>, at: nat, end: nat): (r: Option<(nat, nat)>)
    requires at <= end <= |s|
    ensures r.Some? ==> r.value.0 in {6, 12} && at + r.value.0 <= end
    ensures r.Some? ==> Scalar(r.value.1) && (r.value.0 == 6 ==> r.value.1 < 0x10000)
  {
    if end - at < 6 then None
    else
      var first := Hex4(s, at + 2);
      if LowSurrogate(first) then None
      else if HighSurrogate(first) then
        if end - (at + 6) < 6 || s[at + 6] != BACKSLASH || s[at + 7] != LETTER_U then None
        else
          var second := Hex4(s, at + 8);
          if !LowSurrogate(second) then None else Some((12, PairValue(first, second)))
      else Some((6, first))
  }

  /** Escapes of valid hexadecimal digits are read as RFC 8259 prescribes: a unit that is not a surrogate
      is that code point, a high surrogate needs a low one after it, and nothing else is accepted. */
  lemma EscapeOfHex(s: seq<Byte>, at: nat, end: nat)
    requires at + 6 <= end <= |s| && HexDigits(s, at + 2, 4)
    ensures
      var unit := HexValue(s, at + 2, 4);
      var paired := at + 12 <= end && s[at + 6] == BACKSLASH && s[at + 7] == LETTER_U && HexDigits(s, at + 8, 4)
                    && LowSurrogate(HexValue(s, at + 8, 4));
      Escape(s, at, end) ==
      if Scalar(unit) then Some((6, unit))
      else if HighSurrogate(unit) && paired then Some((12, PairValue(unit, HexValue(s, at + 8, 4))))
      else None
  {
    assert Hex4(s, at + 2) < 0x10000;
  }

  /** The loop of utf16_literal_to_utf8 that fills the `n` tail bytes from the last one backwards. */
  method WriteTails(out: array<Byte>, pos: nat, c: nat, n: nat) returns (rest: nat)
    requires pos + n < out.Length
    modifies out
    ensures out[..pos + 1] == old(out[..pos + 1])
    ensures out[pos + 1..pos + 1 + n] == Tails(c, n)
    ensures rest == Shifted(c, n)
  {
    rest := c;
    var i := n;
    while i > 0
      invariant 0 <= i <= n
      invariant out[..pos + 1] == old(out[..pos + 1])
      invariant rest == Shifted(c, n - i)
      invariant out[pos + i + 1..pos + 1 + n] == Tails(c, n - i)
    {
      out[pos + i] := 0x80 + rest % 64;
      assert out[pos + i..pos + 1 + n] == [out[pos + i]] + out[pos + i + 1..pos + 1 + n];
      rest := rest / 64;
      i := i - 1;
    }
  }

  /** The part of utf16_literal_to_utf8 that writes a code point as UTF-8. */
  method WriteUtf8(out: array<Byte>, pos: nat, c: nat) returns (pos': nat)
    requires c <= 0x10FFFF && pos + |EncodeUtf8(c)| <= out.Length
    modifies out
    ensures pos' == pos + |EncodeUtf8(c)|
    ensures out[..pos'] == old(out[..pos]) + EncodeUtf8(c)
  {
    var length := TailCount(c) + 1;
    var mark := if length == 1 then 0 else if length == 2 then 0xC0 else if length == 3 then 0xE0 else 0xF0;
    var rest := WriteTails(out, pos, c, length - 1);
    ghost var tails := out[pos + 1..pos + length];
    ghost var before := out[..pos + 1][..pos];
    assert mark + rest == FirstByte(c);
    out[pos] := mark + rest;
    pos' := pos + length;
    assert out[..pos'] == out[..pos] + [out[pos]] + out[pos + 1..pos'];
    assert out[..pos] == before == old(out[..pos + 1])[..pos] == old(out[..pos]);
  }
}
