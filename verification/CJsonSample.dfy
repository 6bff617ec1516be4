/** The white space of cJSON's two formats, on a tree that needs all of it: an object with a nested object and an array. */
module CJsonSample {
  import opened Bytes
  import opened CJsonTree

  const LETTER_A: seq<Byte> := [0x61]
  const LETTER_B: seq<Byte> := [0x62]
  const LETTER_C: seq<Byte> := [0x63]

  function Inner(): Json {
    Object([Member(LETTER_B, Null)])
  }

  function Items(): Json {
    Array([True, False])
  }

  /** The tree of `{"a":{"b":null},"c":[true,false]}`. */
  function Sample(): Json {
    Object([Member(LETTER_A, Inner()), Member(LETTER_C, Items())])
  }

  lemma QuotedLetter(s: seq<Byte>)
    requires |s| == 1 && 0x61 <= s[0] <= 0x63
    ensures Quoted(Cut(s)) == [0x22, s[0], 0x22]
  {
    assert s == [s[0]] && s[1..] == [];
    assert Cut(s) == [s[0]] + Cut(s[1..]) == s;
    assert Escaped(s) == EscapedByte(s[0]) + Escaped(s[1..]) == s;
  }

  lemma LastMember(ms: seq<Member>, format: Style, depth: nat)
    requires |ms| == 1
    ensures PrintedMembers(ms, format, depth) ==
      Indent(format.spaced, depth) + Quoted(Cut(ms[0].key)) + KeySeparator(format.spaced) +
      Printed(ms[0].value, format, depth) + MemberEnd(format.spaced, true)
  {
    assert ms[1..] == [];
  }

  lemma TwoTabs(n: nat)
    ensures n == 0 ==> Tabs(n) == []
    ensures n == 1 ==> Tabs(n) == [0x09]
    ensures n == 2 ==> Tabs(n) == [0x09, 0x09]
  {
  }

  lemma InnerSpaced(format: Style, depth: nat)
    requires depth == 1 && format.spaced
    ensures Printed(Inner(), format, depth) == [
      0x7B, 0x0A, 0x09, 0x09, 0x22, 0x62, 0x22, 0x3A, 0x09, 0x6E, 0x75, 0x6C, 0x6C, 0x0A, 0x09, 0x7D]
  {
    LastMember([Member(LETTER_B, Null)], format, depth + 1);
    QuotedLetter(LETTER_B);
    TwoTabs(depth);
    TwoTabs(depth + 1);
  }

  lemma InnerCompact(format: Style, depth: nat)
    requires !format.spaced
    ensures Printed(Inner(), format, depth) == [0x7B, 0x22, 0x62, 0x22, 0x3A, 0x6E, 0x75, 0x6C, 0x6C, 0x7D]
  {
    LastMember([Member(LETTER_B, Null)], format, depth + 1);
    QuotedLetter(LETTER_B);
  }

  lemma ItemsText(format: Style, depth: nat)
    ensures Printed(Items(), format, depth) ==
      if format.spaced then [0x5B, 0x74, 0x72, 0x75, 0x65, 0x2C, 0x20, 0x66, 0x61, 0x6C, 0x73, 0x65, 0x5D]
      else [0x5B, 0x74, 0x72, 0x75, 0x65, 0x2C, 0x66, 0x61, 0x6C, 0x73, 0x65, 0x5D]
  {
    var items := [True, False];
    assert items[1..] == [False];
    assert PrintedItems([False], format, depth + 1) == [0x66, 0x61, 0x6C, 0x73, 0x65];
  }

  function Front(m: Member, format: Style, depth: nat): seq<Byte> {
    Indent(format.spaced, depth) + Quoted(Cut(m.key)) + KeySeparator(format.spaced)
  }

  lemma FrontSpaced(m: Member, format: Style, depth: nat)
    requires format.spaced && depth == 1 && |m.key| == 1 && 0x61 <= m.key[0] <= 0x63
    ensures Front(m, format, depth) == [0x09, 0x22, m.key[0], 0x22, 0x3A, 0x09]
  {
    QuotedLetter(m.key);
    TwoTabs(depth);
  }

  lemma FrontCompact(m: Member, format: Style, depth: nat)
    requires !format.spaced && |m.key| == 1 && 0x61 <= m.key[0] <= 0x63
    ensures Front(m, format, depth) == [0x22, m.key[0], 0x22, 0x3A]
  {
    QuotedLetter(m.key);
  }

  lemma TwoMembers(ms: seq<Member>, format: Style, depth: nat)
    requires |ms| == 2
    ensures PrintedMembers(ms, format, depth) ==
      Front(ms[0], format, depth) + Printed(ms[0].value, format, depth) + MemberEnd(format.spaced, false) +
      (Front(ms[1], format, depth) + Printed(ms[1].value, format, depth) + MemberEnd(format.spaced, true))
  {
    LastMember(ms[1..], format, depth);
  }

  lemma TwoMembersObject(a: Member, c: Member, format: Style, depth: nat)
    ensures Printed(Object([a, c]), format, depth) ==
      ObjectOpening(format.spaced) +
      (Front(a, format, depth + 1) + Printed(a.value, format, depth + 1) + MemberEnd(format.spaced, false) +
       (Front(c, format, depth + 1) + Printed(c.value, format, depth + 1) + MemberEnd(format.spaced, true))) +
      ObjectClosing(format.spaced, depth)
  {
    TwoMembers([a, c], format, depth + 1);
  }

  /** cJSON_Print: members on lines of their own, one tab for each object around them and one behind the colon; arrays
      on one line, with a space behind each comma. */
  lemma PrintedSample(format: Style, depth: nat)
    requires depth == 0 && format.spaced
    ensures Printed(Sample(), format, depth) ==
      [0x7B, 0x0A] +
      ([0x09, 0x22, 0x61, 0x22, 0x3A, 0x09] +
       [0x7B, 0x0A, 0x09, 0x09, 0x22, 0x62, 0x22, 0x3A, 0x09, 0x6E, 0x75, 0x6C, 0x6C, 0x0A, 0x09, 0x7D] + [0x2C, 0x0A] +
       ([0x09, 0x22, 0x63, 0x22, 0x3A, 0x09] +
        [0x5B, 0x74, 0x72, 0x75, 0x65, 0x2C, 0x20, 0x66, 0x61, 0x6C, 0x73, 0x65, 0x5D] + [0x0A])) +
      [0x7D]
  {
    var a, c := Member(LETTER_A, Inner()), Member(LETTER_C, Items());
    TwoMembersObject(a, c, format, depth);
    FrontSpaced(a, format, depth + 1);
    FrontSpaced(c, format, depth + 1);
    InnerSpaced(format, depth + 1);
    ItemsText(format, depth + 1);
    Ends(format, depth);
  }

  lemma Ends(format: Style, depth: nat)
    requires depth == 0
    ensures ObjectClosing(format.spaced, depth) == [0x7D]
    ensures ObjectOpening(format.spaced) == if format.spaced then [0x7B, 0x0A] else [0x7B]
    ensures MemberEnd(format.spaced, false) == if format.spaced then [0x2C, 0x0A] else [0x2C]
    ensures MemberEnd(format.spaced, true) == if format.spaced then [0x0A] else []
  {
    TwoTabs(depth);
  }

  /** cJSON_PrintUnformatted: no white space. */
  lemma CompactSample(format: Style, depth: nat)
    requires depth == 0 && !format.spaced
    ensures Printed(Sample(), format, depth) ==
      [0x7B] +
      ([0x22, 0x61, 0x22, 0x3A] + [0x7B, 0x22, 0x62, 0x22, 0x3A, 0x6E, 0x75, 0x6C, 0x6C, 0x7D] + [0x2C] +
       ([0x22, 0x63, 0x22, 0x3A] + [0x5B, 0x74, 0x72, 0x75, 0x65, 0x2C, 0x66, 0x61, 0x6C, 0x73, 0x65, 0x5D] + [])) +
      [0x7D]
  {
    var a, c := Member(LETTER_A, Inner()), Member(LETTER_C, Items());
    TwoMembersObject(a, c, format, depth);
    FrontCompact(a, format, depth + 1);
    FrontCompact(c, format, depth + 1);
    InnerCompact(format, depth + 1);
    ItemsText(format, depth + 1);
    Ends(format, depth);
  }
}
