/** The value-level behaviour of cJSON's parser and printer: what they return, as functions of the text
and of the tree. `CJsonParser` and `CJsonPrinter` are the code; `CJsonRoundTrip` relates the two. */
module CJsonTree {
  import opened Bytes
  import opened Options
  import opened CJsonString
  import opened CJsonLiteral
  import opened CJsonNumber

  const NESTING_LIMIT: nat := 1000

  const COMMA: Byte := 44
  const COLON: Byte := 58
  const OPEN_BRACKET: Byte := 91
  const CLOSE_BRACKET: Byte := 93
  const OPEN_BRACE: Byte := 123
  const CLOSE_BRACE: Byte := 125
  const TAB: Byte := 9
  const NEWLINE: Byte := 10
  const SPACE: Byte := 32

  const FALSE_WORD: seq<Byte> := [102, 97, 108, 115, 101]
  const TRUE_WORD: seq<Byte> := [116, 114, 117, 101]

  /** An item. A string may hold NUL bytes, which the escape \u0000 and escapes with bad digits put there. */
  datatype Json =
    | Null
    | False
    | True
    | Number(value: Double)
    | String(bytes: seq<Byte>)
    | Array(items: seq<Json>)
    | Object(members: seq<Member>)

  datatype Member = Member(key: seq<Byte>, value: Json)

  /** The token scanners of the parser, parse_string and parse_number. Each gives what a text starts with and how
      many bytes it takes. The grammar below works over any scanners. */
  datatype Scanner = Scanner(
    literal: seq<Byte> -> Option<(seq<Byte>, nat)>,
    number: seq<Byte> -> Option<(Double, nat)>)
  {
    ghost predicate Progresses() {
      && (forall s :: Terminated(s) && literal(s).Some? ==> 0 < literal(s).value.1 < |s|)
      && (forall s :: Terminated(s) && number(s).Some? ==> 0 < number(s).value.1 < |s|)
    }
  }

  // ----- printing -----

  function HexByte(d: nat): Byte
    requires d < 16
  {
    if d < 10 then 48 + d else 87 + d
  }

  /** One byte of a string, as print_string_ptr writes it. */
  function EscapedByte(b: Byte): (e: seq<Byte>)
    ensures |e| in {1, 2, 6}
  {
    if b == QUOTE || b == BACKSLASH then [BACKSLASH, b]
    else if b == 8 then [BACKSLASH, 98]
    else if b == 12 then [BACKSLASH, 102]
    else if b == 10 then [BACKSLASH, 110]
    else if b == 13 then [BACKSLASH, 114]
    else if b == 9 then [BACKSLASH, 116]
    else if b < 32 then [BACKSLASH, LETTER_U, 48, 48, HexByte(b / 16), HexByte(b % 16)]
    else [b]
  }

  function Escaped(s: seq<Byte>): seq<Byte> {
    if s == [] then [] else EscapedByte(s[0]) + Escaped(s[1..])
  }

  function Quoted(s: seq<Byte>): seq<Byte> {
    [QUOTE] + Escaped(s) + [QUOTE]
  }

  /** What C sees of a string: the bytes before the first NUL. */
  function Cut(s: seq<Byte>): (c: seq<Byte>)
    ensures 0 !in c
  {
    if s == [] || s[0] == 0 then [] else [s[0]] + Cut(s[1..])
  }

  /** How a tree is printed: with or without white space, and the text of each number. */
  datatype Style = Style(spaced: bool, number: Double -> seq<Byte>)

  function Tabs(n: nat): (t: seq<Byte>)
    ensures |t| == n && forall i :: 0 <= i < n ==> t[i] == TAB
  {
    seq(n, i => TAB)
  }

  /** The text of a tree. `depth` is the nesting depth at which it is printed. */
  function Printed(v: Json, format: Style, depth: nat): seq<Byte>
    decreases v, 1
  {
    match v
    case Null => NULL_WORD
    case False => FALSE_WORD
    case True => TRUE_WORD
    case Number(d) => format.number(d)
    case String(s) => Quoted(Cut(s))
    case Array(items) => [OPEN_BRACKET] + PrintedItems(items, format, depth + 1) + [CLOSE_BRACKET]
    case Object(members) =>
      ObjectOpening(format.spaced) + PrintedMembers(members, format, depth + 1) + ObjectClosing(format.spaced, depth)
  }

  function ItemSeparator(spaced: bool): seq<Byte> {
    if spaced then [COMMA, SPACE] else [COMMA]
  }

  function PrintedItems(items: seq<Json>, format: Style, depth: nat): seq<Byte>
    decreases items, 0
  {
    if items == [] then []
    else if |items| == 1 then Printed(items[0], format, depth)
    else Printed(items[0], format, depth) + ItemSeparator(format.spaced) + PrintedItems(items[1..], format, depth)
  }

  function ObjectOpening(spaced: bool): seq<Byte> {
    if spaced then [OPEN_BRACE, NEWLINE] else [OPEN_BRACE]
  }

  function ObjectClosing(spaced: bool, depth: nat): seq<Byte> {
    if spaced then Tabs(depth) + [CLOSE_BRACE] else [CLOSE_BRACE]
  }

  function Indent(spaced: bool, depth: nat): seq<Byte> {
    if spaced then Tabs(depth) else []
  }

  function KeySeparator(spaced: bool): seq<Byte> {
    if spaced then [COLON, TAB] else [COLON]
  }

  function MemberEnd(spaced: bool, last: bool): seq<Byte> {
    (if last then [] else [COMMA]) + (if spaced then [NEWLINE] else [])
  }

  function PrintedMembers(members: seq<Member>, format: Style, depth: nat): seq<Byte>
    decreases members, 0
  {
    if members == [] then []
    else
      Indent(format.spaced, depth) + Quoted(Cut(members[0].key)) + KeySeparator(format.spaced) +
      Printed(members[0].value, format, depth) + MemberEnd(format.spaced, |members| == 1) +
      PrintedMembers(members[1..], format, depth)
  }

  // ----- parsing -----

  // The parser is a function of the text from the current offset to the end of the buffer, which ends in
  // a NUL byte; results carry the text that is left.

  predicate StartsWith(s: seq<Byte>, p: seq<Byte>) {
    |p| <= |s| && s[..|p|] == p
  }

  function WithoutBlanks(s: seq<Byte>): (r: seq<Byte>)
    ensures |r| <= |s| && (r != [] && Terminated(s) ==> Terminated(r))
  {
    if s != [] && s[0] <= 32 then WithoutBlanks(s[1..]) else s
  }

  /** buffer_skip_whitespace: a buffer that is blank to its end is left on its last byte. */
  function Skip(s: seq<Byte>): (r: seq<Byte>)
    requires s != []
    ensures 0 < |r| <= |s| && (Terminated(s) ==> Terminated(r))
  {
    var r := WithoutBlanks(s);
    if r == [] then s[|s| - 1..] else r
  }

  /** What is left after reading something from `s`. */
  predicate Left(s: seq<Byte>, r: seq<Byte>) {
    |r| < |s| && Terminated(r)
  }

  /** parse_value. */
  function Parsed(lex: Scanner, s: seq<Byte>, depth: nat): (r: Option<(Json, seq<Byte>)>)
    requires lex.Progresses() && Terminated(s)
    ensures r.Some? ==> Left(s, r.value.1)
    decreases |s|, 2
  {
    if StartsWith(s, NULL_WORD) then assert s[3] == NULL_WORD[3]; Some((Null, s[4..]))
    else if StartsWith(s, FALSE_WORD) then assert s[4] == FALSE_WORD[4]; Some((False, s[5..]))
    else if StartsWith(s, TRUE_WORD) then assert s[3] == TRUE_WORD[3]; Some((True, s[4..]))
    else if s[0] == QUOTE then
      var t := lex.literal(s);
      if t.None? then None else Some((String(t.value.0), s[t.value.1..]))
    else if StartsNumber(s[0]) then
      var n := lex.number(s);
      if n.None? then None else Some((Number(n.value.0), s[n.value.1..]))
    else if s[0] == OPEN_BRACKET then ParsedArray(lex, s, depth)
    else if s[0] == OPEN_BRACE then ParsedObject(lex, s, depth)
    else None
  }

  /** parse_array, at its opening bracket. */
  function ParsedArray(lex: Scanner, s: seq<Byte>, depth: nat): (r: Option<(Json, seq<Byte>)>)
    requires lex.Progresses() && Terminated(s) && s[0] == OPEN_BRACKET
    ensures r.Some? ==> Left(s, r.value.1)
    decreases |s|, 1
  {
    if depth >= NESTING_LIMIT then None
    else
      var first := Skip(s[1..]);
      if first[0] == CLOSE_BRACKET then Some((Array([]), first[1..]))
      else
        var items := ParsedItems(lex, first, depth + 1);
        if items.None? || items.value.1[0] != CLOSE_BRACKET then None
        else Some((Array(items.value.0), items.value.1[1..]))
  }

  /** parse_object, at its opening brace. */
  function ParsedObject(lex: Scanner, s: seq<Byte>, depth: nat): (r: Option<(Json, seq<Byte>)>)
    requires lex.Progresses() && Terminated(s) && s[0] == OPEN_BRACE
    ensures r.Some? ==> Left(s, r.value.1)
    decreases |s|, 1
  {
    if depth >= NESTING_LIMIT then None
    else
      var first := Skip(s[1..]);
      if first[0] == CLOSE_BRACE then Some((Object([]), first[1..]))
      else
        var members := ParsedMembers(lex, first, depth + 1);
        if members.None? || members.value.1[0] != CLOSE_BRACE then None
        else Some((Object(members.value.0), members.value.1[1..]))
  }

  /** Comma-separated values, and the text from what ends them. */
  function ParsedItems(lex: Scanner, s: seq<Byte>, depth: nat): (r: Option<(seq<Json>, seq<Byte>)>)
    requires lex.Progresses() && Terminated(s)
    ensures r.Some? ==> Left(s, r.value.1)
    decreases |s|, 3
  {
    var v := Parsed(lex, Skip(s), depth);
    if v.None? then None
    else
      var next := Skip(v.value.1);
      if next[0] != COMMA then Some(([v.value.0], next))
      else
        var rest := ParsedItems(lex, next[1..], depth);
        if rest.None? then None else Some(([v.value.0] + rest.value.0, rest.value.1))
  }

  /** Comma-separated members, and the text from what ends them. */
  function ParsedMembers(lex: Scanner, s: seq<Byte>, depth: nat): (r: Option<(seq<Member>, seq<Byte>)>)
    requires lex.Progresses() && Terminated(s)
    ensures r.Some? ==> Left(s, r.value.1)
    decreases |s|, 3
  {
    var key := KeyOf(lex, s);
    if key.None? then None
    else
      var v := Parsed(lex, key.value.1, depth);
      if v.None? then None
      else
        var next := Skip(v.value.1);
        assert Left(s, next);
        var m := Member(key.value.0, v.value.0);
        if next[0] != COMMA then Some(([m], next))
        else
          var rest := ParsedMembers(lex, next[1..], depth);
          if rest.None? then None else Some(([m] + rest.value.0, rest.value.1))
  }

  /** A member's key, and the text from its value on. */
  function KeyOf(lex: Scanner, s: seq<Byte>): (r: Option<(seq<Byte>, seq<Byte>)>)
    requires lex.Progresses() && Terminated(s)
    ensures r.Some? ==> Left(s, r.value.1)
  {
    var k := Skip(s);
    var key := lex.literal(k);
    if key.None? then None
    else
      var colon := Skip(k[key.value.1..]);
      if colon[0] != COLON then None else Some((key.value.0, Skip(colon[1..])))
  }

  /** parse_array and parse_object from the first element on. */
  function ArrayFrom(lex: Scanner, s: seq<Byte>, depth: nat): Option<(Json, seq<Byte>)>
    requires lex.Progresses() && Terminated(s)
  {
    if s[0] == CLOSE_BRACKET then Some((Array([]), s[1..]))
    else
      var items := ParsedItems(lex, s, depth);
      if items.None? || items.value.1[0] != CLOSE_BRACKET then None
      else Some((Array(items.value.0), items.value.1[1..]))
  }

  function ObjectFrom(lex: Scanner, s: seq<Byte>, depth: nat): Option<(Json, seq<Byte>)>
    requires lex.Progresses() && Terminated(s)
  {
    if s[0] == CLOSE_BRACE then Some((Object([]), s[1..]))
    else
      var members := ParsedMembers(lex, s, depth);
      if members.None? || members.value.1[0] != CLOSE_BRACE then None
      else Some((Object(members.value.0), members.value.1[1..]))
  }

  const BOM: seq<Byte> := [0xEF, 0xBB, 0xBF]

  /** cJSON_Parse. */
  function Parse(lex: Scanner, text: seq<Byte>): Option<Json>
    requires lex.Progresses()
  {
    var s := text + [0];
    var v := Parsed(lex, Skip(if 4 < |s| && StartsWith(s, BOM) then s[3..] else s), 0);
    if v.None? then None else Some(v.value.0)
  }

  // ----- the scanners and numbers of cJSON -----

  function CjsonScanner(strtod: Strtod): (lex: Scanner)
    ensures lex.Progresses()
  {
    Scanner(s => Literal(s, 0), s => NumberAt(strtod, s))
  }

  /** The style of cJSON_Print and cJSON_PrintUnformatted. */
  function CjsonStyle(fp: Floating, spaced: bool): Style {
    Style(spaced, d => Rendered(fp, d))
  }
}
