/** What cJSON_Parse accepts is JSON, up to its own blanks, strings and numbers, and what follows the value. */
module CJsonSound {
  import opened Bytes
  import opened Options
  import opened CJsonAccept
  import opened CJsonGrammar
  import opened CJsonLiteral
  import opened CJsonNumber
  import opened CJsonRoundTrip
  import opened CJsonString
  import opened CJsonStringGrammar
  import opened CJsonTree
  import opened JsonNumbers

  /** The dialect has everything that the scanners yield, and every blank that the parser skips. */
  ghost predicate Yields(lex: Scanner, g: Dialect) {
    && lex.Progresses()
    && (forall b :: b <= 32 ==> g.blank(b))
    && (forall s :: Terminated(s) && lex.literal(s).Some? ==>
          g.literal(s[..lex.literal(s).value.1], lex.literal(s).value.0))
    && (forall s :: Terminated(s) && StartsNumber(s[0]) && lex.number(s).Some? ==>
          g.number(s[..lex.number(s).value.1], lex.number(s).value.0))
  }

  lemma {:induction false} BlanksCut(g: Dialect, s: seq<Byte>) returns (w: seq<Byte>)
    requires forall b :: b <= 32 ==> g.blank(b)
    ensures s == w + WithoutBlanks(s) && Blanks(g, w)
  {
    w := [];
    if s != [] && s[0] <= 32 {
      var more := BlanksCut(g, s[1..]);
      w := [s[0]] + more;
    }
  }

  /** What is skipped is blank. */
  lemma SkipCut(g: Dialect, s: seq<Byte>) returns (w: seq<Byte>)
    requires s != [] && forall b :: b <= 32 ==> g.blank(b)
    ensures s == w + Skip(s) && Blanks(g, w)
  {
    w := BlanksCut(g, s);
    if WithoutBlanks(s) == [] {
      LastOf(s);
      w := s[..|s| - 1];
    }
  }

  lemma TokenCut(s: seq<Byte>, n: nat)
    requires n <= |s|
    ensures s == s[..n] + s[n..]
  {
  }

  // ----- values -----

  /** A value that is read has a text of the dialect. */
  lemma {:induction false} Sound(lex: Scanner, g: Dialect, s: seq<Byte>, depth: nat) returns (t: seq<Byte>)
    requires Yields(lex, g) && Terminated(s) && Parsed(lex, s, depth).Some?
    ensures var r := Parsed(lex, s, depth).value; s == t + r.1 && IsValue(g, t, r.0)
    decreases |s|, 2
  {
    if s[0] == OPEN_BRACKET {
      ContainerValue(lex, s, depth);
      t := ArraySound(lex, g, s, depth);
    } else if s[0] == OPEN_BRACE {
      ContainerValue(lex, s, depth);
      t := ObjectSound(lex, g, s, depth);
    } else {
      t := ScalarSound(lex, g, s, depth);
    }
  }

  lemma ScalarSound(lex: Scanner, g: Dialect, s: seq<Byte>, depth: nat) returns (t: seq<Byte>)
    requires Yields(lex, g) && Terminated(s) && Parsed(lex, s, depth).Some? && s[0] != OPEN_BRACKET &&
      s[0] != OPEN_BRACE
    ensures var r := Parsed(lex, s, depth).value; s == t + r.1 && IsValue(g, t, r.0)
  {
    if StartsWith(s, NULL_WORD) {
      t := NULL_WORD;
      TokenCut(s, 4);
    } else if StartsWith(s, FALSE_WORD) {
      t := FALSE_WORD;
      TokenCut(s, 5);
    } else if StartsWith(s, TRUE_WORD) {
      t := TRUE_WORD;
      TokenCut(s, 4);
    } else if s[0] == QUOTE {
      t := s[..lex.literal(s).value.1];
      TokenCut(s, lex.literal(s).value.1);
    } else {
      t := s[..lex.number(s).value.1];
      TokenCut(s, lex.number(s).value.1);
    }
  }

  // ----- arrays -----

  lemma {:induction false} ArraySound(lex: Scanner, g: Dialect, s: seq<Byte>, depth: nat) returns (t: seq<Byte>)
    requires Yields(lex, g) && Terminated(s) && s[0] == OPEN_BRACKET && ParsedArray(lex, s, depth).Some?
    ensures var r := ParsedArray(lex, s, depth).value; s == t + r.1 && IsValue(g, t, r.0)
    decreases |s|, 1
  {
    var first := Skip(s[1..]);
    ArrayStepped(lex, s, depth);
    var w := SkipCut(g, s[1..]);
    var body, items, rest := ArrayFromSound(lex, g, first, depth + 1);
    t := ArrayText(g, s, w, first, body, items, rest);
  }

  lemma ArrayStepped(lex: Scanner, s: seq<Byte>, depth: nat)
    requires lex.Progresses() && Terminated(s) && s[0] == OPEN_BRACKET && ParsedArray(lex, s, depth).Some?
    ensures Terminated(s[1..]) && ParsedArray(lex, s, depth) == ArrayFrom(lex, Skip(s[1..]), depth + 1)
  {
  }

  lemma ArrayText(g: Dialect, s: seq<Byte>, w: seq<Byte>, first: seq<Byte>, body: seq<Byte>, items: seq<Json>,
                  rest: seq<Byte>)
    returns (t: seq<Byte>)
    requires s != [] && s[0] == OPEN_BRACKET && s[1..] == w + first && first == body + ([CLOSE_BRACKET] + rest)
    requires Blanks(g, w) && IsItems(g, body, items)
    ensures s == t + rest && IsValue(g, t, Array(items))
  {
    LeadingItems(g, w, body, items);
    t := [OPEN_BRACKET] + (w + body) + [CLOSE_BRACKET];
    Inside([OPEN_BRACKET], w + body, [CLOSE_BRACKET]);
    Enclosed(s, w, first, body, [CLOSE_BRACKET], rest);
  }

  lemma Enclosed(s: seq<Byte>, w: seq<Byte>, first: seq<Byte>, body: seq<Byte>, end: seq<Byte>, rest: seq<Byte>)
    requires s != [] && s[1..] == w + first && first == body + (end + rest)
    ensures s == [s[0]] + (w + body) + end + rest
  {
    assert s == [s[0]] + s[1..];
    assert w + (body + (end + rest)) == (w + body) + end + rest;
  }

  lemma FirstOf(s: seq<Byte>)
    requires s != []
    ensures s == [s[0]] + s[1..] == [] + ([s[0]] + s[1..])
  {
  }

  lemma {:induction false} ArrayFromSound(lex: Scanner, g: Dialect, first: seq<Byte>, depth: nat)
    returns (body: seq<Byte>, items: seq<Json>, rest: seq<Byte>)
    requires Yields(lex, g) && Terminated(first) && ArrayFrom(lex, first, depth).Some?
    ensures ArrayFrom(lex, first, depth) == Some((Array(items), rest))
    ensures first == body + ([CLOSE_BRACKET] + rest) && IsItems(g, body, items)
    decreases |first|, 4
  {
    if first[0] == CLOSE_BRACKET {
      body, items, rest := [], [], first[1..];
      FirstOf(first);
    } else {
      body := ItemsSound(lex, g, first, depth);
      var r := ParsedItems(lex, first, depth).value;
      items, rest := r.0, r.1[1..];
      FirstOf(r.1);
    }
  }

  lemma {:induction false} ItemsSound(lex: Scanner, g: Dialect, s: seq<Byte>, depth: nat) returns (t: seq<Byte>)
    requires Yields(lex, g) && Terminated(s) && ParsedItems(lex, s, depth).Some?
    ensures var r := ParsedItems(lex, s, depth).value; s == t + r.1 && IsItems(g, t, r.0) && r.0 != []
    decreases |s|, 3
  {
    ItemStepped(lex, s, depth);
    var v := Parsed(lex, Skip(s), depth).value;
    var next := Skip(v.1);
    var w := SkipCut(g, s);
    var x := Sound(lex, g, Skip(s), depth);
    var after := SkipCut(g, v.1);
    if next[0] != COMMA {
      t := LastItemFrom(g, s, w, Skip(s), x, v.0, v.1, after, next);
    } else {
      var more := ItemsSound(lex, g, next[1..], depth);
      var r := ParsedItems(lex, next[1..], depth).value;
      t := MoreItemsFrom(g, s, w, Skip(s), x, v.0, v.1, after, next, more, r.0, r.1);
    }
  }

  lemma LastItemFrom(g: Dialect, s: seq<Byte>, w: seq<Byte>, value: seq<Byte>, x: seq<Byte>, v: Json, behind: seq<Byte>,
                     after: seq<Byte>, next: seq<Byte>) returns (t: seq<Byte>)
    requires s == w + value && value == x + behind && behind == after + next
    requires Blanks(g, w) && Blanks(g, after) && IsValue(g, x, v)
    ensures s == t + next && IsItems(g, t, [v])
  {
    t := w + x + after;
    EndCut(s, w, value, x, behind, after, next);
    IsItemsFrom(g, t, [v], w, x, after, []);
  }

  lemma MoreItemsFrom(g: Dialect, s: seq<Byte>, w: seq<Byte>, value: seq<Byte>, x: seq<Byte>, v: Json,
                      behind: seq<Byte>,
                      after: seq<Byte>, next: seq<Byte>, more: seq<Byte>, items: seq<Json>, rest: seq<Byte>)
    returns (t: seq<Byte>)
    requires s == w + value && value == x + behind && behind == after + next
    requires next != [] && next[0] == COMMA && next[1..] == more + rest
    requires Blanks(g, w) && Blanks(g, after) && IsValue(g, x, v) && items != [] && IsItems(g, more, items)
    ensures s == t + rest && IsItems(g, t, [v] + items)
  {
    t := w + x + after + ([COMMA] + more);
    MoreCut(s, w, value, x, behind, after, next, more, rest);
    assert ([v] + items)[1..] == items;
    IsItemsFrom(g, t, [v] + items, w, x, after, [COMMA] + more);
  }

  /** One turn of the element loop. */
  lemma ItemStepped(lex: Scanner, s: seq<Byte>, depth: nat)
    requires lex.Progresses() && Terminated(s) && ParsedItems(lex, s, depth).Some?
    ensures
      var v := Parsed(lex, Skip(s), depth);
      && v.Some? && Left(s, Skip(v.value.1))
      && ParsedItems(lex, s, depth) == AfterItem(lex, true, v.value.0, Skip(v.value.1), depth)
  {
  }

  lemma EndCut(s: seq<Byte>, w: seq<Byte>, value: seq<Byte>, x: seq<Byte>, behind: seq<Byte>, after: seq<Byte>,
               next: seq<Byte>)
    requires s == w + value && value == x + behind && behind == after + next
    ensures s == w + x + after + next && Joins(w + x + after, w, x, after, [])
  {
  }

  lemma MoreCut(s: seq<Byte>, w: seq<Byte>, value: seq<Byte>, x: seq<Byte>, behind: seq<Byte>, after: seq<Byte>,
                next: seq<Byte>, more: seq<Byte>, rest: seq<Byte>)
    requires s == w + value && value == x + behind && behind == after + next
    requires next != [] && next[0] == COMMA && next[1..] == more + rest
    ensures var t := w + x + after + ([COMMA] + more);
            s == t + rest && Joins(t, w, x, after, [COMMA] + more) && ([COMMA] + more)[1..] == more
  {
    assert next == [COMMA] + next[1..];
    assert [COMMA] + (more + rest) == [COMMA] + more + rest;
    EndCut(s, w, value, x, behind, after, next);
  }

  // ----- objects -----

  lemma {:induction false} ObjectSound(lex: Scanner, g: Dialect, s: seq<Byte>, depth: nat) returns (t: seq<Byte>)
    requires Yields(lex, g) && Terminated(s) && s[0] == OPEN_BRACE && ParsedObject(lex, s, depth).Some?
    ensures var r := ParsedObject(lex, s, depth).value; s == t + r.1 && IsValue(g, t, r.0)
    decreases |s|, 1
  {
    var first := Skip(s[1..]);
    ObjectStepped(lex, s, depth);
    var w := SkipCut(g, s[1..]);
    var body, members, rest := ObjectFromSound(lex, g, first, depth + 1);
    t := ObjectText(g, s, w, first, body, members, rest);
  }

  lemma ObjectStepped(lex: Scanner, s: seq<Byte>, depth: nat)
    requires lex.Progresses() && Terminated(s) && s[0] == OPEN_BRACE && ParsedObject(lex, s, depth).Some?
    ensures Terminated(s[1..]) && ParsedObject(lex, s, depth) == ObjectFrom(lex, Skip(s[1..]), depth + 1)
  {
  }

  lemma ObjectText(g: Dialect, s: seq<Byte>, w: seq<Byte>, first: seq<Byte>, body: seq<Byte>, members: seq<Member>,
                   rest: seq<Byte>) returns (t: seq<Byte>)
    requires s != [] && s[0] == OPEN_BRACE && s[1..] == w + first && first == body + ([CLOSE_BRACE] + rest)
    requires Blanks(g, w) && IsMembers(g, body, members)
    ensures s == t + rest && IsValue(g, t, Object(members))
  {
    LeadingMembers(g, w, body, members);
    t := [OPEN_BRACE] + (w + body) + [CLOSE_BRACE];
    Inside([OPEN_BRACE], w + body, [CLOSE_BRACE]);
    Enclosed(s, w, first, body, [CLOSE_BRACE], rest);
  }

  lemma {:induction false} ObjectFromSound(lex: Scanner, g: Dialect, first: seq<Byte>, depth: nat)
    returns (body: seq<Byte>, members: seq<Member>, rest: seq<Byte>)
    requires Yields(lex, g) && Terminated(first) && ObjectFrom(lex, first, depth).Some?
    ensures ObjectFrom(lex, first, depth) == Some((Object(members), rest))
    ensures first == body + ([CLOSE_BRACE] + rest) && IsMembers(g, body, members)
    decreases |first|, 4
  {
    if first[0] == CLOSE_BRACE {
      body, members, rest := [], [], first[1..];
      FirstOf(first);
    } else {
      body := MembersSound(lex, g, first, depth);
      var r := ParsedMembers(lex, first, depth).value;
      members, rest := r.0, r.1[1..];
      FirstOf(r.1);
    }
  }

  lemma {:induction false} MembersSound(lex: Scanner, g: Dialect, s: seq<Byte>, depth: nat) returns (t: seq<Byte>)
    requires Yields(lex, g) && Terminated(s) && ParsedMembers(lex, s, depth).Some?
    ensures var r := ParsedMembers(lex, s, depth).value; s == t + r.1 && IsMembers(g, t, r.0) && r.0 != []
    decreases |s|, 3
  {
    MemberStepped(lex, s, depth);
    var key := KeyOf(lex, s).value;
    var v := Parsed(lex, key.1, depth).value;
    var next := Skip(v.1);
    var value := Sound(lex, g, key.1, depth);
    if next[0] != COMMA {
      t := LastMemberFrom(lex, g, s, value, v.0, v.1);
    } else {
      var more := MembersSound(lex, g, next[1..], depth);
      var r := ParsedMembers(lex, next[1..], depth).value;
      t := MoreMembersFrom(lex, g, s, value, v.0, v.1, more, r.0, r.1);
    }
  }

  /** One turn of the member loop. */
  lemma MemberStepped(lex: Scanner, s: seq<Byte>, depth: nat)
    requires lex.Progresses() && Terminated(s) && ParsedMembers(lex, s, depth).Some?
    ensures
      var key := KeyOf(lex, s);
      && key.Some? && Left(s, key.value.1)
      && var v := Parsed(lex, key.value.1, depth);
      && v.Some? && Left(s, Skip(v.value.1))
      && ParsedMembers(lex, s, depth) == AfterMember(lex, true, Member(key.value.0, v.value.0), Skip(v.value.1), depth)
  {
  }

  /** A member that is read has a text of the dialect, behind blanks. */
  lemma MemberSound(lex: Scanner, g: Dialect, s: seq<Byte>, value: seq<Byte>, v: Json, behind: seq<Byte>)
    returns (w: seq<Byte>, x: seq<Byte>)
    requires Yields(lex, g) && Terminated(s) && KeyOf(lex, s).Some?
    requires KeyOf(lex, s).value.1 == value + behind && IsValue(g, value, v)
    ensures s == w + (x + behind) && Blanks(g, w) && IsMember(g, x, Member(KeyOf(lex, s).value.0, v))
  {
    w := SkipCut(g, s);
    var k := Skip(s);
    var n := lex.literal(k).value.1;
    var colon := Skip(k[n..]);
    var left := SkipCut(g, k[n..]);
    var right := SkipCut(g, colon[1..]);
    x := k[..n] + left + ([COLON] + right) + value;
    KeyCut(k, n, left, colon, right, value, behind);
    MemberFrom(g, k[..n], left, right, value, Member(KeyOf(lex, s).value.0, v));
  }

  lemma MemberFrom(g: Dialect, key: seq<Byte>, left: seq<Byte>, right: seq<Byte>, value: seq<Byte>, m: Member)
    requires g.literal(key, m.key) && Blanks(g, left) && Blanks(g, right) && IsValue(g, value, m.value)
    ensures IsMember(g, key + left + ([COLON] + right) + value, m)
  {
    assert Joins(key + left + ([COLON] + right) + value, key, left, [0x3A] + right, value);
  }

  lemma KeyCut(k: seq<Byte>, n: nat, left: seq<Byte>, colon: seq<Byte>, right: seq<Byte>, value: seq<Byte>,
               behind: seq<Byte>)
    requires n <= |k| && k[n..] == left + colon && colon != [] && colon[0] == COLON
    requires colon[1..] == right + (value + behind)
    ensures k == (k[..n] + left + ([COLON] + right) + value) + behind
  {
    TokenCut(k, n);
    FirstOf(colon);
    KeyText(k[..n] + left + ([COLON] + right) + value, k[..n], left, right, value, behind);
  }

  lemma LastMemberFrom(lex: Scanner, g: Dialect, s: seq<Byte>, value: seq<Byte>, v: Json, behind: seq<Byte>)
    returns (t: seq<Byte>)
    requires Yields(lex, g) && Terminated(s) && KeyOf(lex, s).Some? && behind != []
    requires KeyOf(lex, s).value.1 == value + behind && IsValue(g, value, v)
    ensures s == t + Skip(behind) && IsMembers(g, t, [Member(KeyOf(lex, s).value.0, v)])
  {
    var w, x := MemberSound(lex, g, s, value, v, behind);
    var after := SkipCut(g, behind);
    t := w + x + after;
    EndCut(s, w, x + behind, x, behind, after, Skip(behind));
    IsMembersFrom(g, t, [Member(KeyOf(lex, s).value.0, v)], w, x, after, []);
  }

  lemma MoreMembersFrom(lex: Scanner, g: Dialect, s: seq<Byte>, value: seq<Byte>, v: Json, behind: seq<Byte>,
                        more: seq<Byte>, members: seq<Member>, rest: seq<Byte>) returns (t: seq<Byte>)
    requires Yields(lex, g) && Terminated(s) && KeyOf(lex, s).Some? && behind != []
    requires KeyOf(lex, s).value.1 == value + behind && IsValue(g, value, v)
    requires Skip(behind)[0] == COMMA && Skip(behind)[1..] == more + rest && members != [] &&
      IsMembers(g, more, members)
    ensures s == t + rest && IsMembers(g, t, [Member(KeyOf(lex, s).value.0, v)] + members)
  {
    var w, x := MemberSound(lex, g, s, value, v, behind);
    var after := SkipCut(g, behind);
    t := w + x + after + ([COMMA] + more);
    MoreCut(s, w, x + behind, x, behind, after, Skip(behind), more, rest);
    Prepended(g, t, Member(KeyOf(lex, s).value.0, v), members, w, x, after, more);
  }

  lemma Prepended(g: Dialect, t: seq<Byte>, m: Member, members: seq<Member>, w: seq<Byte>, x: seq<Byte>,
                  after: seq<Byte>,
                  more: seq<Byte>)
    requires Joins(t, w, x, after, [COMMA] + more) && ([COMMA] + more)[1..] == more
    requires Blanks(g, w) && Blanks(g, after) && IsMember(g, x, m) && members != [] && IsMembers(g, more, members)
    ensures IsMembers(g, t, [m] + members)
  {
    assert ([m] + members)[1..] == members;
    IsMembersFrom(g, t, [m] + members, w, x, after, [COMMA] + more);
  }

  // ----- texts -----

  lemma TextParts(s: seq<Byte>, mark: seq<Byte>, u: seq<Byte>, w: seq<Byte>, value: seq<Byte>, t: seq<Byte>,
                  rest: seq<Byte>)
    requires StartsWith(s, mark) && u == s[|mark|..] && u == w + value && value == t + rest
    ensures s == mark + w + t + rest
  {
    TokenCut(s, |mark|);
    assert mark + (w + (t + rest)) == mark + w + t + rest;
  }

  /** What is parsed: perhaps a byte order mark, blanks, a value of the dialect, and then anything. */
  lemma SoundText(lex: Scanner, g: Dialect, text: seq<Byte>)
    returns (mark: seq<Byte>, w: seq<Byte>, t: seq<Byte>, rest: seq<Byte>)
    requires Yields(lex, g) && Parse(lex, text).Some?
    ensures text + [0] == mark + w + t + rest && (mark == [] || mark == [0xEF, 0xBB, 0xBF])
    ensures Blanks(g, w) && IsValue(g, t, Parse(lex, text).value)
  {
    var s := text + [0];
    mark := if 4 < |s| && StartsWith(s, BOM) then BOM else [];
    var u := if 4 < |s| && StartsWith(s, BOM) then s[3..] else s;
    w, t, rest := SoundFrom(lex, g, u);
    WholeFrom(s);
    TextParts(s, mark, u, w, Skip(u), t, rest);
  }

  lemma WholeFrom(s: seq<Byte>)
    ensures s[0..] == s && s[..0] == []
  {
  }

  lemma SoundFrom(lex: Scanner, g: Dialect, u: seq<Byte>) returns (w: seq<Byte>, t: seq<Byte>, rest: seq<Byte>)
    requires Yields(lex, g) && Terminated(u) && Parsed(lex, Skip(u), 0).Some?
    ensures u == w + Skip(u) && Skip(u) == t + rest && Blanks(g, w)
    ensures IsValue(g, t, Parsed(lex, Skip(u), 0).value.0)
  {
    w := SkipCut(g, u);
    t := Sound(lex, g, Skip(u), 0);
    rest := Parsed(lex, Skip(u), 0).value.1;
  }

  // ----- the dialect of cJSON's own scanners -----

  /** What strtod reads of at most 63 number bytes, of which it may leave some. */
  ghost predicate LooseNumber(strtod: Strtod, t: seq<Byte>, d: Double) {
    && t != [] && (t[0] == 0x2D || 0x30 <= t[0] <= 0x39)
    && exists more :: NumberChars(t + more) && |t + more| <= 63 && strtod(t + more) == (|t|, d)
  }

  predicate NumberChars(t: seq<Byte>) {
    forall i :: 0 <= i < |t| ==> NumberChar(t[i])
  }

  /** Like RFC 8259, but every byte up to 32 is a blank, and strings and numbers are looser. */
  ghost function Loose(strtod: Strtod): Dialect {
    Dialect(b => b <= 0x20, (t, s) => IsLooseString(t, s), (t, d: Double) => LooseNumber(strtod, t, d))
  }

  lemma LooselyNumber(strtod: Strtod, s: seq<Byte>)
    requires Terminated(s) && StartsNumber(s[0]) && NumberAt(strtod, s).Some?
    ensures var (d, n) := NumberAt(strtod, s).value; LooseNumber(strtod, s[..n], d)
  {
    var (d, n) := NumberAt(strtod, s).value;
    var k := |NumberRun(s, 63)|;
    CopiesExactly(s, k);
    NumberExactly(strtod, s, k, d, n);
    assert s[..n] + s[n..k] == s[..k];
    assert NumberChars(s[..k]);
  }

  lemma LooseYields(strtod: Strtod)
    ensures Yields(CjsonScanner(strtod), Loose(strtod))
  {
    forall s | Terminated(s) && Literal(s, 0).Some?
      ensures IsLooseString(s[..Literal(s, 0).value.1], Literal(s, 0).value.0)
    {
      LiteralExactly(s, Literal(s, 0).value.0, Literal(s, 0).value.1);
    }
    forall s | Terminated(s) && StartsNumber(s[0]) && NumberAt(strtod, s).Some?
      ensures LooseNumber(strtod, s[..NumberAt(strtod, s).value.1], NumberAt(strtod, s).value.0)
    {
      LooselyNumber(strtod, s);
    }
  }

  /** cJSON_Parse on every text: what it makes of one is the value of a text of that dialect, after blanks and perhaps a
      byte order mark, and what follows the value is never looked at. */
  lemma ParsesOnlyJson(strtod: Strtod, text: seq<Byte>)
    returns (mark: seq<Byte>, w: seq<Byte>, t: seq<Byte>, rest: seq<Byte>)
    requires Parse(CjsonScanner(strtod), text).Some?
    ensures text + [0] == mark + w + t + rest && (mark == [] || mark == [0xEF, 0xBB, 0xBF])
    ensures Blanks(Loose(strtod), w) && IsValue(Loose(strtod), t, Parse(CjsonScanner(strtod), text).value)
  {
    LooseYields(strtod);
    mark, w, t, rest := SoundText(CjsonScanner(strtod), Loose(strtod), text);
  }
}
