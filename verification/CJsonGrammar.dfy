/** The texts of numbers, by section 6 of RFC 8259. */
module JsonNumbers {
  import opened Bytes

  predicate Digits(t: seq<Byte>) {
    t != [] && forall i :: 0 <= i < |t| ==> 0x30 <= t[i] <= 0x39
  }

  /** The bytes that numbers are made of. */
  predicate NumberChar(b: Byte) {
    0x30 <= b <= 0x39 || b == 0x2B || b == 0x2D || b == 0x2E || b == 0x45 || b == 0x65
  }

  predicate FractionPart(t: seq<Byte>) {
    t != [] && t[0] == 0x2E && Digits(t[1..])
  }

  predicate ExponentPart(t: seq<Byte>) {
    |t| >= 2 && (t[0] == 0x65 || t[0] == 0x45) &&
    (Digits(t[1..]) || ((t[1] == 0x2B || t[1] == 0x2D) && Digits(t[2..])))
  }

  /** An optional minus, an integer without leading zeros, an optional fraction and an optional exponent. */
  predicate NumberParts(t: seq<Byte>, minus: seq<Byte>, whole: seq<Byte>, frac: seq<Byte>, exp: seq<Byte>) {
    && t == minus + whole + frac + exp
    && (minus == [] || minus == [0x2D])
    && Digits(whole) && (whole[0] == 0x30 ==> |whole| == 1)
    && (frac == [] || FractionPart(frac)) && (exp == [] || ExponentPart(exp))
  }

  ghost predicate IsNumber(t: seq<Byte>) {
    exists minus, whole, frac, exp :: NumberParts(t, minus, whole, frac, exp)
  }
}

/** JSON texts and the trees they denote, after sections 2 to 7 of RFC 8259 and apart from the parser and the printer:
a relation with its own bytes for every name, structural character, blank, escape and digit. */
module CJsonGrammar {
  import opened Bytes
  import opened Options
  import opened CJsonNumber
  import opened CJsonString
  import opened CJsonTree
  import opened JsonNumbers

  /** What may vary between readers of JSON: the blanks, the strings and the numbers. */
  datatype Dialect = Dialect(
    blank: Byte -> bool,
    literal: (seq<Byte>, seq<Byte>) -> bool,
    number: (seq<Byte>, Double) -> bool)

  // ----- section 7, strings -----

  function HexOf(b: Byte): Option<nat> {
    if 0x30 <= b <= 0x39 then Some(b - 0x30)
    else if 0x41 <= b <= 0x46 then Some(b - 0x41 + 10)
    else if 0x61 <= b <= 0x66 then Some(b - 0x61 + 10)
    else None
  }

  /** The number that four hexadecimal digits write. */
  function Hex4Of(x: seq<Byte>): Option<nat>
    requires |x| == 4
  {
    var a, b, c, d := HexOf(x[0]), HexOf(x[1]), HexOf(x[2]), HexOf(x[3]);
    if a.Some? && b.Some? && c.Some? && d.Some? then
      Some(0x1000 * a.value + 0x100 * b.value + 0x10 * c.value + d.value)
    else None
  }

  /** The character of an escape by code: outside the surrogates one unit, else a high unit and a low one. */
  function CodePoint(x: seq<Byte>): Option<nat> {
    if |x| == 6 && x[0] == 0x5C && x[1] == 0x75 && Hex4Of(x[2..6]).Some? then
      var u := Hex4Of(x[2..6]).value;
      if 0xD800 <= u <= 0xDFFF then None else Some(u)
    else if |x| == 12 && x[0] == 0x5C && x[1] == 0x75 && x[6] == 0x5C && x[7] == 0x75 &&
            Hex4Of(x[2..6]).Some? && Hex4Of(x[8..12]).Some? then
      var high, low := Hex4Of(x[2..6]).value, Hex4Of(x[8..12]).value;
      if 0xD800 <= high <= 0xDBFF && 0xDC00 <= low <= 0xDFFF then
        Some(0x10000 + 0x400 * (high - 0xD800) + (low - 0xDC00))
      else None
    else None
  }

  /** The character of a two-byte escape, by its second byte. */
  function Escapee(b: Byte): Option<Byte> {
    if b == 0x22 then Some(0x22)
    else if b == 0x5C then Some(0x5C)
    else if b == 0x2F then Some(0x2F)
    else if b == 0x62 then Some(0x08)
    else if b == 0x66 then Some(0x0C)
    else if b == 0x6E then Some(0x0A)
    else if b == 0x72 then Some(0x0D)
    else if b == 0x74 then Some(0x09)
    else None
  }

  /** `x` stands for the bytes `e`: a plain byte for itself, an escape for its character in UTF-8. */
  predicate OneChar(x: seq<Byte>, e: seq<Byte>) {
    || (|x| == 1 && x[0] >= 0x20 && x[0] != 0x22 && x[0] != 0x5C && e == x)
    || (|x| == 2 && x[0] == 0x5C && Escapee(x[1]).Some? && e == [Escapee(x[1]).value])
    || (CodePoint(x).Some? && DecodeUtf8(e) == CodePoint(x))
  }

  ghost predicate Chars(b: seq<Byte>, s: seq<Byte>)
    decreases |b|
  {
    if b == [] then s == []
    else exists n: nat, m: nat :: 0 < n <= |b| && m <= |s| && OneChar(b[..n], s[..m]) && Chars(b[n..], s[m..])
  }

  ghost predicate IsString(t: seq<Byte>, s: seq<Byte>) {
    |t| >= 2 && t[0] == 0x22 && t[|t| - 1] == 0x22 && Chars(t[1..|t| - 1], s)
  }

  // ----- sections 2 to 5, values -----

  /** RFC 8259. The text of a number is at most 63 bytes long, which is what cJSON reads of one, and its double is the
      one that strtod gives. */
  ghost function Rfc(strtod: Strtod): Dialect {
    Dialect(
      b => b == 0x20 || b == 0x09 || b == 0x0A || b == 0x0D,
      (t, s) => IsString(t, s),
      (t, d) => IsNumber(t) && |t| <= 63 && strtod(t) == (|t|, d))
  }

  predicate Blanks(g: Dialect, w: seq<Byte>) {
    forall i :: 0 <= i < |w| ==> g.blank(w[i])
  }

  predicate Joins(t: seq<Byte>, before: seq<Byte>, x: seq<Byte>, after: seq<Byte>, rest: seq<Byte>) {
    t == before + x + after + rest
  }

  ghost predicate IsValue(g: Dialect, t: seq<Byte>, v: Json)
    decreases v, 1
  {
    match v
    case Null => t == [0x6E, 0x75, 0x6C, 0x6C]
    case False => t == [0x66, 0x61, 0x6C, 0x73, 0x65]
    case True => t == [0x74, 0x72, 0x75, 0x65]
    case Number(d) => g.number(t, d)
    case String(s) => g.literal(t, s)
    case Array(items) => |t| >= 2 && t[0] == 0x5B && t[|t| - 1] == 0x5D && IsItems(g, t[1..|t| - 1], items)
    case Object(members) => |t| >= 2 && t[0] == 0x7B && t[|t| - 1] == 0x7D && IsMembers(g, t[1..|t| - 1], members)
  }

  /** Values with blanks around them and commas between them. */
  ghost predicate IsItems(g: Dialect, t: seq<Byte>, items: seq<Json>)
    decreases items, 0
  {
    if items == [] then Blanks(g, t)
    else exists before, x, after, rest ::
      Joins(t, before, x, after, rest) && Blanks(g, before) && Blanks(g, after) && IsValue(g, x, items[0]) &&
      if |items| == 1 then rest == [] else rest != [] && rest[0] == 0x2C && IsItems(g, rest[1..], items[1..])
  }

  ghost predicate IsMembers(g: Dialect, t: seq<Byte>, members: seq<Member>)
    decreases members, 0
  {
    if members == [] then Blanks(g, t)
    else exists before, x, after, rest ::
      Joins(t, before, x, after, rest) && Blanks(g, before) && Blanks(g, after) && IsMember(g, x, members[0]) &&
      if |members| == 1 then rest == [] else rest != [] && rest[0] == 0x2C && IsMembers(g, rest[1..], members[1..])
  }

  /** A string, a colon and a value, with blanks around the colon. */
  ghost predicate IsMember(g: Dialect, t: seq<Byte>, m: Member)
    decreases m, 2
  {
    exists key, before, after, x :: Joins(t, key, before, [0x3A] + after, x) &&
      g.literal(key, m.key) && Blanks(g, before) && Blanks(g, after) && IsValue(g, x, m.value)
  }

  /** A text of that grammar: a value with blanks around it. */
  ghost predicate Denotes(g: Dialect, text: seq<Byte>, v: Json) {
    exists before, x, after :: Joins(text, before, x, after, []) &&
      Blanks(g, before) && Blanks(g, after) && IsValue(g, x, v)
  }
}
