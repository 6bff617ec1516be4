/** A printed tree is a JSON text, and what it denotes is what comes back when it is parsed. */
module CJsonRoundTrip {
  import opened Bytes
  import opened Options
  import opened CJsonAccept
  import opened CJsonGrammar
  import opened CJsonLiteral
  import opened CJsonNumber
  import opened CJsonStringGrammar
  import opened CJsonTree

  /** The double that is read from the text of a printed one, None when that text is null. */
  type Reads = Double -> Option<Double>

  /** What comes back of a printed tree. */
  function Reread(back: Reads, v: Json): Json
    decreases v, 1
  {
    match v
    case Number(d) => if back(d).None? then Null else Number(back(d).value)
    case String(s) => String(Cut(s))
    case Array(items) => Array(RereadItems(back, items))
    case Object(members) => Object(RereadMembers(back, members))
    case _ => v
  }

  function RereadItems(back: Reads, items: seq<Json>): seq<Json>
    decreases items, 0
  {
    if items == [] then [] else [Reread(back, items[0])] + RereadItems(back, items[1..])
  }

  function RereadMember(back: Reads, m: Member): Member
    decreases m, 2
  {
    Member(Cut(m.key), Reread(back, m.value))
  }

  function RereadMembers(back: Reads, members: seq<Member>): seq<Member>
    decreases members, 0
  {
    if members == [] then [] else [RereadMember(back, members[0])] + RereadMembers(back, members[1..])
  }

  // ----- strings -----

  lemma HexBytes(b: Byte)
    requires b < 32
    ensures HexOf(HexByte(b / 16)) == Some(b / 16) && HexOf(HexByte(b % 16)) == Some(b % 16)
  {
  }

  /** Every byte is escaped to a character of the grammar that stands for it. */
  lemma EscapedChar(b: Byte)
    ensures OneChar(EscapedByte(b), [b])
  {
    var x := EscapedByte(b);
    if |x| == 6 {
      HexBytes(b);
      assert x[2..6] == [48, 48, HexByte(b / 16), HexByte(b % 16)];
      assert Hex4Of(x[2..6]) == Some(b);
    }
  }

  lemma {:induction false} EscapedChars(s: seq<Byte>)
    ensures Chars(Escaped(s), s)
    decreases |s|
  {
    if s != [] {
      var e, rest := EscapedByte(s[0]), Escaped(s[1..]);
      EscapedChar(s[0]);
      EscapedChars(s[1..]);
      assert (e + rest)[..|e|] == e && (e + rest)[|e|..] == rest && s[..1] == [s[0]];
    }
  }

  /** print_string_ptr writes a JSON string that stands for the bytes. */
  lemma QuotedString(s: seq<Byte>)
    ensures IsString(Quoted(s), s)
  {
    EscapedChars(s);
    var t := Quoted(s);
    assert t[1..|t| - 1] == Escaped(s);
  }

  /** So parse_string undoes it. */
  lemma LiteralOfQuoted(s: seq<Byte>, rest: seq<Byte>)
    ensures Literal(Quoted(s) + rest, 0) == Some((s, |Quoted(s)|))
  {
    QuotedString(s);
    StringRead(Quoted(s), s, rest);
  }

  // ----- trees -----

  /** The dialect has the blanks of the printer, its strings, and the texts of its numbers with what comes back. */
  ghost predicate Writes(g: Dialect, format: Style, back: Reads) {
    && g.blank(SPACE) && g.blank(TAB) && g.blank(NEWLINE)
    && (forall s :: g.literal(Quoted(s), s))
    && (forall d :: WritesNumber(g, format, back, d))
  }

  ghost predicate WritesNumber(g: Dialect, format: Style, back: Reads, d: Double) {
    if back(d).None? then format.number(d) == NULL_WORD else g.number(format.number(d), back(d).value)
  }

  lemma {:induction false} PrintedValue(g: Dialect, format: Style, back: Reads, v: Json, pd: nat)
    requires Writes(g, format, back)
    ensures IsValue(g, Printed(v, format, pd), Reread(back, v))
    decreases v, 1
  {
    match v
    case Array(items) =>
      PrintedArray(g, format, back, items, pd);
    case Object(members) =>
      PrintedObject(g, format, back, members, pd);
    case Number(d) => assert WritesNumber(g, format, back, d);
    case _ =>
  }

  lemma {:induction false} PrintedArray(g: Dialect, format: Style, back: Reads, items: seq<Json>, pd: nat)
    requires Writes(g, format, back)
    ensures IsValue(g, Printed(Array(items), format, pd), Array(RereadItems(back, items)))
    decreases items, 1
  {
    var body := PrintedItems(items, format, pd + 1);
    ItemsText(g, format, back, items, pd + 1);
    Inside([OPEN_BRACKET], body, [CLOSE_BRACKET]);
  }

  lemma Inside(a: seq<Byte>, body: seq<Byte>, b: seq<Byte>)
    requires |a| == 1 && |b| == 1
    ensures var t := a + body + b; t[0] == a[0] && t[|t| - 1] == b[0] && t[1..|t| - 1] == body
  {
  }

  lemma IsItemsFrom(g: Dialect, t: seq<Byte>, items: seq<Json>, before: seq<Byte>, x: seq<Byte>, after: seq<Byte>,
                    rest: seq<Byte>)
    requires items != [] && Joins(t, before, x, after, rest)
    requires Blanks(g, before) && Blanks(g, after) && IsValue(g, x, items[0])
    requires if |items| == 1 then rest == [] else rest != [] && rest[0] == COMMA && IsItems(g, rest[1..], items[1..])
    ensures IsItems(g, t, items)
  {
  }

  // How texts are put together; these facts are about sequences only.

  lemma JoinsBlanks(g: Dialect, w: seq<Byte>, t: seq<Byte>, before: seq<Byte>, x: seq<Byte>, after: seq<Byte>,
                    rest: seq<Byte>)
    requires Joins(t, before, x, after, rest) && Blanks(g, w) && Blanks(g, before)
    ensures Joins(w + t, w + before, x, after, rest) && Blanks(g, w + before)
  {
  }

  lemma JoinsTwo(x: seq<Byte>, rest: seq<Byte>)
    ensures Joins(x + rest, [], x, [], rest) && Joins(x, [], x, [], [])
  {
  }

  lemma CommaFirst(comma: seq<Byte>, w: seq<Byte>, rest: seq<Byte>)
    requires comma == [COMMA]
    ensures var t := comma + w + rest; t != [] && t[0] == COMMA && t[1..] == w + rest
  {
  }

  lemma LeadingItems(g: Dialect, w: seq<Byte>, t: seq<Byte>, items: seq<Json>)
    requires Blanks(g, w) && IsItems(g, t, items)
    ensures IsItems(g, w + t, items)
  {
    if items != [] {
      var before, x, after, rest := ItemsCut(g, t, items);
      JoinsBlanks(g, w, t, before, x, after, rest);
      IsItemsFrom(g, w + t, items, w + before, x, after, rest);
    }
  }

  lemma {:induction false} ItemsText(g: Dialect, format: Style, back: Reads, items: seq<Json>, pd: nat)
    requires Writes(g, format, back)
    ensures IsItems(g, PrintedItems(items, format, pd), RereadItems(back, items))
    decreases items, 0
  {
    if items != [] {
      var x, read := Printed(items[0], format, pd), RereadItems(back, items);
      PrintedValue(g, format, back, items[0], pd);
      RereadTail(back, items);
      if |items| == 1 {
        JoinsTwo(x, []);
        IsItemsFrom(g, x, read, [], x, [], []);
      } else {
        ItemsText(g, format, back, items[1..], pd);
        MoreItemsText(g, format.spaced, x, PrintedItems(items[1..], format, pd), read);
        Associate(x, ItemSeparator(format.spaced), PrintedItems(items[1..], format, pd));
      }
    }
  }

  lemma Associate(a: seq<Byte>, b: seq<Byte>, c: seq<Byte>)
    ensures a + b + c == a + (b + c)
  {
  }

  lemma MoreItemsText(g: Dialect, spaced: bool, x: seq<Byte>, more: seq<Byte>, items: seq<Json>)
    requires g.blank(SPACE) && |items| > 1 && IsValue(g, x, items[0]) && IsItems(g, more, items[1..])
    ensures IsItems(g, x + (ItemSeparator(spaced) + more), items)
  {
    var space: seq<Byte> := if spaced then [SPACE] else [];
    var rest := ItemSeparator(spaced) + more;
    assert ItemSeparator(spaced) == [COMMA] + space;
    CommaFirst([COMMA], space, more);
    LeadingItems(g, space, more, items[1..]);
    JoinsTwo(x, rest);
    IsItemsFrom(g, x + rest, items, [], x, [], rest);
  }

  lemma RereadTail(back: Reads, items: seq<Json>)
    requires items != []
    ensures var read := RereadItems(back, items);
            |read| == |items| && read[0] == Reread(back, items[0]) && read[1..] == RereadItems(back, items[1..])
  {
    RereadLength(back, items[1..]);
  }

  lemma {:induction false} RereadLength(back: Reads, items: seq<Json>)
    ensures |RereadItems(back, items)| == |items|
  {
    if items != [] {
      RereadLength(back, items[1..]);
    }
  }

  // ----- objects -----

  lemma IsMembersFrom(g: Dialect, t: seq<Byte>, members: seq<Member>, before: seq<Byte>, x: seq<Byte>, after: seq<Byte>,
                      rest: seq<Byte>)
    requires members != [] && Joins(t, before, x, after, rest)
    requires Blanks(g, before) && Blanks(g, after) && IsMember(g, x, members[0])
    requires
      if |members| == 1 then rest == []
      else rest != [] && rest[0] == COMMA && IsMembers(g, rest[1..], members[1..])
    ensures IsMembers(g, t, members)
  {
  }

  lemma LeadingMembers(g: Dialect, w: seq<Byte>, t: seq<Byte>, members: seq<Member>)
    requires Blanks(g, w) && IsMembers(g, t, members)
    ensures IsMembers(g, w + t, members)
  {
    if members != [] {
      var before, x, after, rest := MembersCut(g, t, members);
      JoinsBlanks(g, w, t, before, x, after, rest);
      IsMembersFrom(g, w + t, members, w + before, x, after, rest);
    }
  }

  lemma {:induction false} PrintedObject(g: Dialect, format: Style, back: Reads, members: seq<Member>, pd: nat)
    requires Writes(g, format, back)
    ensures IsValue(g, Printed(Object(members), format, pd), Object(RereadMembers(back, members)))
    decreases members, 1
  {
    MembersText(g, format, back, members, pd + 1, Indent(format.spaced, pd));
    ObjectText(g, format.spaced, PrintedMembers(members, format, pd + 1), RereadMembers(back, members), pd);
  }

  lemma ObjectText(g: Dialect, spaced: bool, text: seq<Byte>, members: seq<Member>, pd: nat)
    requires g.blank(NEWLINE) && IsMembers(g, text + Indent(spaced, pd), members)
    ensures IsValue(g, ObjectOpening(spaced) + text + ObjectClosing(spaced, pd), Object(members))
  {
    LeadingMembers(g, Newline(spaced), text + Indent(spaced, pd), members);
    ObjectParts(spaced, text, pd);
    Inside([OPEN_BRACE], Newline(spaced) + (text + Indent(spaced, pd)), [CLOSE_BRACE]);
  }

  function Newline(spaced: bool): seq<Byte> {
    if spaced then [NEWLINE] else []
  }

  lemma ObjectParts(spaced: bool, text: seq<Byte>, pd: nat)
    ensures ObjectOpening(spaced) + text + ObjectClosing(spaced, pd) ==
            [OPEN_BRACE] + (Newline(spaced) + (text + Indent(spaced, pd))) + [CLOSE_BRACE]
  {
    assert ObjectOpening(spaced) == [OPEN_BRACE] + Newline(spaced);
    assert ObjectClosing(spaced, pd) == Indent(spaced, pd) + [CLOSE_BRACE];
    Around([OPEN_BRACE], Newline(spaced), text, Indent(spaced, pd), [CLOSE_BRACE]);
  }

  lemma Around(a: seq<Byte>, b: seq<Byte>, c: seq<Byte>, d: seq<Byte>, e: seq<Byte>)
    ensures a + b + c + (d + e) == a + (b + (c + d)) + e
  {
  }

  /** A printed member. */
  lemma {:induction false} MemberText(g: Dialect, format: Style, back: Reads, m: Member, pd: nat)
    requires Writes(g, format, back)
    ensures IsMember(g, Quoted(Cut(m.key)) + KeySeparator(format.spaced) + Printed(m.value, format, pd),
                     RereadMember(back, m))
    decreases m, 2
  {
    PrintedValue(g, format, back, m.value, pd);
    IsMemberFrom(g, Quoted(Cut(m.key)), if format.spaced then [TAB] else [], Printed(m.value, format, pd),
                 RereadMember(back, m));
    assert KeySeparator(format.spaced) == [COLON] + if format.spaced then [TAB] else [];
  }

  lemma IsMemberFrom(g: Dialect, key: seq<Byte>, after: seq<Byte>, x: seq<Byte>, m: Member)
    requires g.literal(key, m.key) && Blanks(g, after) && IsValue(g, x, m.value)
    ensures IsMember(g, key + ([COLON] + after) + x, m)
  {
    JoinsColon(key, after, x);
    assert Blanks(g, []);
  }

  lemma JoinsColon(key: seq<Byte>, after: seq<Byte>, x: seq<Byte>)
    ensures Joins(key + ([COLON] + after) + x, key, [], [0x3A] + after, x)
  {
  }

  lemma {:induction false} MembersText(g: Dialect, format: Style, back: Reads, members: seq<Member>, pd: nat,
                                       w: seq<Byte>)
    requires Writes(g, format, back) && Blanks(g, w)
    ensures IsMembers(g, PrintedMembers(members, format, pd) + w, RereadMembers(back, members))
    decreases members, 0
  {
    if members == [] {
      assert PrintedMembers(members, format, pd) + w == w;
    } else {
      var x := Quoted(Cut(members[0].key)) + KeySeparator(format.spaced) + Printed(members[0].value, format, pd);
      MemberText(g, format, back, members[0], pd);
      RereadMembersTail(back, members);
      MembersText(g, format, back, members[1..], pd, w);
      OneMemberText(g, format.spaced, pd, x, PrintedMembers(members[1..], format, pd) + w,
                    RereadMembers(back, members));
      MemberParts(Indent(format.spaced, pd), Quoted(Cut(members[0].key)), KeySeparator(format.spaced),
                  Printed(members[0].value, format, pd), MemberEnd(format.spaced, |members| == 1),
                  PrintedMembers(members[1..], format, pd), w);
    }
  }

  lemma MemberParts(i: seq<Byte>, k: seq<Byte>, s: seq<Byte>, v: seq<Byte>, e: seq<Byte>, rest: seq<Byte>, w: seq<Byte>)
    ensures i + k + s + v + e + rest + w == i + (k + s + v) + e + (rest + w)
  {
    assert i + k + s + v == i + (k + s + v);
  }

  lemma OneMemberText(g: Dialect, spaced: bool, pd: nat, x: seq<Byte>, more: seq<Byte>, members: seq<Member>)
    requires g.blank(TAB) && g.blank(NEWLINE) && members != [] && IsMember(g, x, members[0]) &&
      IsMembers(g, more, members[1..])
    ensures IsMembers(g, Indent(spaced, pd) + x + MemberEnd(spaced, |members| == 1) + more, members)
  {
    if |members| == 1 {
      LastParts(g, Indent(spaced, pd), x, spaced, more);
      IsMembersFrom(g, Indent(spaced, pd) + x + MemberEnd(spaced, true) + more, members, Indent(spaced, pd), x,
                    Newline(spaced) + more, []);
    } else {
      LeadingMembers(g, Newline(spaced), more, members[1..]);
      MoreParts(Indent(spaced, pd), x, spaced, more);
      IsMembersFrom(g, Indent(spaced, pd) + x + MemberEnd(spaced, false) + more, members, Indent(spaced, pd), x, [],
                    [COMMA] + Newline(spaced) + more);
    }
  }

  lemma LastParts(g: Dialect, indent: seq<Byte>, x: seq<Byte>, spaced: bool, more: seq<Byte>)
    requires g.blank(NEWLINE) && Blanks(g, more)
    ensures Joins(indent + x + MemberEnd(spaced, true) + more, indent, x, Newline(spaced) + more, [])
    ensures Blanks(g, Newline(spaced) + more)
  {
    assert MemberEnd(spaced, true) == Newline(spaced);
  }

  lemma MoreParts(indent: seq<Byte>, x: seq<Byte>, spaced: bool, more: seq<Byte>)
    ensures var rest := [COMMA] + Newline(spaced) + more;
            && Joins(indent + x + MemberEnd(spaced, false) + more, indent, x, [], rest)
            && rest[0] == COMMA && rest[1..] == Newline(spaced) + more
  {
    CommaFirst([COMMA], Newline(spaced), more);
    assert MemberEnd(spaced, false) == [COMMA] + Newline(spaced);
    assert indent + x + [] == indent + x;
    Associate(indent + x, [COMMA] + Newline(spaced), more);
  }

  lemma RereadMembersTail(back: Reads, members: seq<Member>)
    requires members != []
    ensures var read := RereadMembers(back, members);
            && |read| == |members| && read[0] == RereadMember(back, members[0])
            && read[1..] == RereadMembers(back, members[1..])
  {
    RereadMembersLength(back, members[1..]);
  }

  lemma {:induction false} RereadMembersLength(back: Reads, members: seq<Member>)
    ensures |RereadMembers(back, members)| == |members|
  {
    if members != [] {
      RereadMembersLength(back, members[1..]);
    }
  }

  // ----- what comes back -----

  /** The printed tree is a text of the dialect, for the tree that comes back. */
  lemma PrintedDenotes(g: Dialect, format: Style, back: Reads, v: Json)
    requires Writes(g, format, back)
    ensures Denotes(g, Printed(v, format, 0), Reread(back, v))
  {
    PrintedValue(g, format, back, v, 0);
    JoinsTwo(Printed(v, format, 0), []);
    assert Blanks(g, []);
  }

  function CjsonBack(fp: Floating): Reads {
    d => Back(fp, d)
  }

  lemma CjsonWrites(fp: Floating, spaced: bool)
    requires Lawful(fp)
    ensures Writes(Rfc(fp.strtod), CjsonStyle(fp, spaced), CjsonBack(fp))
  {
    forall s: seq<Byte> ensures IsString(Quoted(s), s) {
      QuotedString(s);
    }
    forall d ensures WritesNumber(Rfc(fp.strtod), CjsonStyle(fp, spaced), CjsonBack(fp), d) {
      NumberWritten(fp, spaced, d);
    }
  }

  lemma NumberWritten(fp: Floating, spaced: bool, d: Double)
    requires Lawful(fp)
    ensures WritesNumber(Rfc(fp.strtod), CjsonStyle(fp, spaced), CjsonBack(fp), d)
  {
    if Finite(d) {
      assert Converts(fp, d);
      RenderedAgain(fp, d);
    }
  }

  /** cJSON_Print and cJSON_PrintUnformatted write a JSON text of RFC 8259 for every tree. It denotes the tree with its
      strings up to their first NUL, its doubles as what their text reads, and its infinities and NaNs as null. */
  lemma PrintsJson(fp: Floating, v: Json, spaced: bool)
    requires Lawful(fp)
    ensures Denotes(Rfc(fp.strtod), Printed(v, CjsonStyle(fp, spaced), 0), Reread(CjsonBack(fp), v))
  {
    CjsonWrites(fp, spaced);
    PrintedDenotes(Rfc(fp.strtod), CjsonStyle(fp, spaced), CjsonBack(fp), v);
  }

  lemma {:induction false} SameNesting(back: Reads, v: Json)
    ensures Nesting(Reread(back, v)) == Nesting(v)
    decreases v, 1
  {
    match v
    case Array(items) => SameItemsNesting(back, items);
    case Object(members) => SameMembersNesting(back, members);
    case _ =>
  }

  lemma {:induction false} SameItemsNesting(back: Reads, items: seq<Json>)
    ensures ItemsNesting(RereadItems(back, items)) == ItemsNesting(items)
    decreases items, 0
  {
    if items != [] {
      SameNesting(back, items[0]);
      SameItemsNesting(back, items[1..]);
    }
  }

  lemma {:induction false} SameMembersNesting(back: Reads, members: seq<Member>)
    ensures MembersNesting(RereadMembers(back, members)) == MembersNesting(members)
    decreases members, 0
  {
    if members != [] {
      SameNesting(back, members[0].value);
      SameMembersNesting(back, members[1..]);
    }
  }

  /** cJSON_Parse on what cJSON_Print or cJSON_PrintUnformatted made of any tree: that tree, unless it is nested more
      than 1000 deep. */
  lemma RoundTrip(fp: Floating, v: Json, spaced: bool)
    requires Lawful(fp)
    ensures Parse(CjsonScanner(fp.strtod), Printed(v, CjsonStyle(fp, spaced), 0)) ==
            if Nesting(v) <= NESTING_LIMIT then Some(Reread(CjsonBack(fp), v)) else None
  {
    PrintsJson(fp, v, spaced);
    ParsesJson(fp.strtod, Printed(v, CjsonStyle(fp, spaced), 0), Reread(CjsonBack(fp), v));
    SameNesting(CjsonBack(fp), v);
  }
}
